/**
 * Building the group of rule definition models of one decision policy: the runtime id is the
 * sanitised identifier, and every rule item must sit in a `rules/` directory, whose last path
 * segment becomes the rule's short name.
 */
module RuleFactory {
  import opened Wrappers
  import opened Entities
  import opened Errors
  import opened Paths

  /** One rule file: its short name (the file name below `rules/`) and its content. */
  datatype RuleDefinitionModel = RuleDefinitionModel(ruleShortName: string, content: string)

  /**
   * The rules of one policy: `identifier` is the full path of the owning policy, `runtimeId`
   * the name the rule engine knows them by.
   */
  datatype RuleDefinitionModelGroup = RuleDefinitionModelGroup(
    identifier: string,
    runtimeId: string,
    ruleDefinitionModelList: seq<RuleDefinitionModel>)

  const RULES_DIRECTORY: string := "rules"

  /** The identifier with every run of slashes collapsed to one slash, then trimmed. */
  function SanitizeIdentifier(identifier: string): (r: string)
    ensures !HasDoubleSlash(r)
    ensures r == [] || (!IsTrimmed(r[0]) && !IsTrimmed(r[|r| - 1]))
    ensures |r| <= |identifier|
  {
    TrimKeepsNoDoubleSlash(CollapseSlashes(identifier));
    Trim(CollapseSlashes(identifier))
  }

  /** An identifier that is already clean is its own runtime id. */
  lemma SanitizeKeepsCleanIdentifier(identifier: string)
    requires !HasDoubleSlash(identifier)
    requires identifier == [] || (!IsTrimmed(identifier[0]) && !IsTrimmed(identifier[|identifier| - 1]))
    ensures SanitizeIdentifier(identifier) == identifier
  {
    CollapseSlashesNoop(identifier);
    TrimNoop(identifier);
  }

  /** A run of slashes in an identifier gives the same runtime id as a single slash. */
  lemma SanitizeSlashRun(a: string, k: nat, b: string)
    ensures SanitizeIdentifier(a + Slashes(k + 1) + b) == SanitizeIdentifier(a + "/" + b)
  {
    CollapseSlashRun(a, k, b);
  }

  /** Sanitising twice is sanitising once. */
  lemma SanitizeIdempotent(identifier: string)
    ensures SanitizeIdentifier(SanitizeIdentifier(identifier)) == SanitizeIdentifier(identifier)
  {
    SanitizeKeepsCleanIdentifier(SanitizeIdentifier(identifier));
  }

  /**
   * The first group of the pattern `/?+rules/+([^/]+)$` searched anywhere in the name: the last
   * path segment, provided it is non-empty and preceded by `rules` and one or more slashes.
   */
  function RuleShortName(name: string): (r: Option<string>)
    ensures r.Some? ==> r.value != [] && '/' !in r.value
    ensures r.Some? ==> |r.value| < |name| && name[|name| - |r.value|..] == r.value
  {
    var seg := LastSegment(name);
    var rest := name[..|name| - |seg|];
    var dir := TrimTrailingSlashes(rest);
    if seg != [] && |dir| < |rest| && |dir| >= |RULES_DIRECTORY| && dir[|dir| - |RULES_DIRECTORY|..] == RULES_DIRECTORY
    then Some(seg)
    else None
  }

  lemma TakeAppend(x: string, y: string)
    ensures (x + y)[..|x|] == x
  {
  }

  /** Every name of the form `<prefix>rules/<slashes><file>` yields the file name. */
  lemma RuleShortNameOf(prefix: string, k: nat, file: string)
    requires k >= 1 && file != [] && '/' !in file
    ensures RuleShortName(prefix + RULES_DIRECTORY + Slashes(k) + file) == Some(file)
  {
    var dir := prefix + RULES_DIRECTORY;
    assert prefix + RULES_DIRECTORY + Slashes(k) + file == dir + Slashes(k) + file;
    SplitLastSegment(dir, k, file);
    TakeAppend(dir + Slashes(k), file);
    TrimTrailingSlashesOf(dir, k);
    assert dir[|dir| - |RULES_DIRECTORY|..] == RULES_DIRECTORY;
  }

  /** Conversely, a name that yields a short name has that form. */
  lemma RuleShortNameDecomposes(name: string) returns (prefix: string, k: nat)
    requires RuleShortName(name).Some?
    ensures k >= 1 && name == prefix + RULES_DIRECTORY + Slashes(k) + RuleShortName(name).value
  {
    var seg := LastSegment(name);
    var rest := name[..|name| - |seg|];
    var dir := TrimTrailingSlashes(rest);
    k := |rest| - |dir|;
    prefix := dir[..|dir| - |RULES_DIRECTORY|];
    SplitOff(dir, |RULES_DIRECTORY|);
    SlashTail(rest, dir);
    SplitOff(name, |seg|);
  }

  /** A string is its front followed by its last n characters. */
  lemma SplitOff(s: string, n: nat)
    requires n <= |s|
    ensures s == s[..|s| - n] + s[|s| - n..]
  {
  }

  /** A string whose characters after a prefix are all slashes is that prefix and a slash run. */
  lemma SlashTail(s: string, front: string)
    requires front <= s && forall i | |front| <= i < |s| :: s[i] == '/'
    ensures s == front + Slashes(|s| - |front|)
  {
  }

  /** A rule file directly under `rules/` is named by its file name. */
  lemma RuleFileShortName()
    ensures RuleShortName("rules/a.dmn") == Some("a.dmn")
  {
    assert Slashes(1) == "/";
    assert "" + RULES_DIRECTORY + Slashes(1) + "a.dmn" == "rules/a.dmn";
    RuleShortNameOf("", 1, "a.dmn");
  }

  /** A name ending in a slash has no file name. */
  lemma DirectoryHasNoShortName(dir: string)
    ensures RuleShortName(dir + "/").None?
  {
  }

  /** A file outside any `rules/` directory has no short name. */
  lemma FileOutsideRulesHasNoShortName()
    ensures RuleShortName("policy/1.0/file.dmn").None?
  {
    var n := "policy/1.0/file.dmn";
    assert n == "policy/1.0" + "/" + "file.dmn";
    LastSegmentAfterSlash("policy/1.0", "file.dmn");
    assert n[..|n| - 8] == "policy/1.0/";
    assert TrimTrailingSlashes("policy/1.0/") == "policy/1.0";
  }

  /**
   * Model building for every entry, in entry order, with `shortName` the name-matching step
   * (`findFirstGroupMatch` with a fixed pattern); the first unmatched name throws.
   */
  function CreateModels(shortName: string -> Option<string>, entries: seq<ConfigStoreItem>)
    : (r: Result<seq<RuleDefinitionModel>, Exception>)
    ensures r.Success? <==> forall i | 0 <= i < |entries| :: shortName(entries[i].name).Some?
    ensures r.Success? ==> |r.value| == |entries|
    ensures r.Success? ==> forall i | 0 <= i < |entries| ::
      r.value[i] == RuleDefinitionModel(shortName(entries[i].name).value, entries[i].content)
    ensures r.Failure? ==> exists i | 0 <= i < |entries| ::
      r.error == MissingRuleDirectory(entries[i].name) && shortName(entries[i].name).None? &&
      forall j | 0 <= j < i :: shortName(entries[j].name).Some?
    decreases |entries|
  {
    if entries == [] then Success([])
    else
      var init := entries[..|entries| - 1];
      var last := entries[|entries| - 1];
      assert entries == init + [last];
      match CreateModels(shortName, init)
      case Failure(e) =>
        ModelsKeepMissing(shortName, init, last, e);
        Result.Failure(e)
      case Success(models) =>
        match shortName(last.name)
        case None =>
          ModelsMissing(shortName, init, last);
          Result.Failure(MissingRuleDirectory(last.name))
        case Some(name) =>
          ModelsAdd(shortName, init, last, models);
          Success(models + [RuleDefinitionModel(name, last.content)])
  }

  /** Every entry's name yields a short name. */
  ghost predicate AllNamed(shortName: string -> Option<string>, entries: seq<ConfigStoreItem>) {
    forall i | 0 <= i < |entries| :: shortName(entries[i].name).Some?
  }

  /** `models` is the entries' short names and contents, in order. */
  ghost predicate Builds(shortName: string -> Option<string>, entries: seq<ConfigStoreItem>, models: seq<RuleDefinitionModel>) {
    AllNamed(shortName, entries) && |models| == |entries| &&
    forall i | 0 <= i < |entries| :: models[i] == RuleDefinitionModel(shortName(entries[i].name).value, entries[i].content)
  }

  /** `e` is the error for the first entry whose name yields no short name. */
  ghost predicate FirstMissing(shortName: string -> Option<string>, entries: seq<ConfigStoreItem>, e: Exception) {
    exists i | 0 <= i < |entries| ::
      e == MissingRuleDirectory(entries[i].name) && shortName(entries[i].name).None? &&
      forall j | 0 <= j < i :: shortName(entries[j].name).Some?
  }

  /** An earlier unnamed entry stays the first one. */
  lemma ModelsKeepMissing(shortName: string -> Option<string>, init: seq<ConfigStoreItem>, last: ConfigStoreItem, e: Exception)
    requires FirstMissing(shortName, init, e)
    ensures FirstMissing(shortName, init + [last], e) && !AllNamed(shortName, init + [last])
  {
    var i :| 0 <= i < |init| && e == MissingRuleDirectory(init[i].name) && shortName(init[i].name).None? &&
      forall j | 0 <= j < i :: shortName(init[j].name).Some?;
    var entries := init + [last];
    assert forall j | 0 <= j <= i :: entries[j] == init[j];
  }

  /** After named entries, an unnamed last entry is the first unnamed one. */
  lemma ModelsMissing(shortName: string -> Option<string>, init: seq<ConfigStoreItem>, last: ConfigStoreItem)
    requires AllNamed(shortName, init) && shortName(last.name).None?
    ensures FirstMissing(shortName, init + [last], MissingRuleDirectory(last.name)) && !AllNamed(shortName, init + [last])
  {
    var entries := init + [last];
    assert forall j | 0 <= j < |init| :: entries[j] == init[j];
    assert entries[|init|] == last;
  }

  /** A named last entry adds its model. */
  lemma ModelsAdd(shortName: string -> Option<string>, init: seq<ConfigStoreItem>, last: ConfigStoreItem,
                  models: seq<RuleDefinitionModel>)
    requires Builds(shortName, init, models) && shortName(last.name).Some?
    ensures Builds(shortName, init + [last], models + [RuleDefinitionModel(shortName(last.name).value, last.content)])
  {
    var entries := init + [last];
    assert forall j | 0 <= j < |init| :: entries[j] == init[j];
    assert entries[|init|] == last;
  }

  /**
   * `create`: the group for a policy identifier and its rule-item map, given as its entries in
   * iteration order; the identifier is kept as given, the runtime id is its sanitised form, and
   * each model's short name is what the `rules/` pattern extracts from the item name.
   */
  function Create(identifier: string, entries: seq<ConfigStoreItem>): (r: Result<RuleDefinitionModelGroup, Exception>)
    ensures r.Success? <==> CreateModels(RuleShortName, entries).Success?
    ensures r.Success? ==> r.value.identifier == identifier && r.value.runtimeId == SanitizeIdentifier(identifier)
    ensures r.Success? ==> r.value.ruleDefinitionModelList == CreateModels(RuleShortName, entries).value
    ensures r.Failure? ==> r.error.MissingRuleDirectory?
  {
    match CreateModels(RuleShortName, entries)
    case Failure(e) => Result.Failure(e)
    case Success(models) => Success(RuleDefinitionModelGroup(identifier, SanitizeIdentifier(identifier), models))
  }

  /** The short names of a group's models, in order. */
  function ShortNames(models: seq<RuleDefinitionModel>): (names: seq<string>)
    ensures |names| == |models| && forall i | 0 <= i < |models| :: names[i] == models[i].ruleShortName
  {
    seq(|models|, i requires 0 <= i < |models| => models[i].ruleShortName)
  }

  /** No two items share a name. */
  predicate NamesDistinct(items: seq<ConfigStoreItem>) {
    forall i, j | 0 <= i < j < |items| :: items[i].name != items[j].name
  }

  /** `convertItemsToMap`: name to content; a repeated name throws like `Collectors.toMap`. */
  function ConvertItemsToMap(items: seq<ConfigStoreItem>): (r: Result<map<string, string>, Exception>)
    ensures r.Success? <==> NamesDistinct(items)
    ensures r.Success? ==> forall i | 0 <= i < |items| :: items[i].name in r.value && r.value[items[i].name] == items[i].content
    ensures r.Success? ==> forall k | k in r.value :: exists i | 0 <= i < |items| :: items[i].name == k
    ensures r.Failure? ==> r.error.DuplicateKey?
    ensures r.Failure? ==>
      exists i, j | 0 <= i < j < |items| :: items[i].name == items[j].name == r.error.key
    decreases |items|
  {
    if items == [] then Success(map[])
    else
      var init := items[..|items| - 1];
      var last := items[|items| - 1];
      assert items == init + [last];
      match ConvertItemsToMap(init)
      case Failure(e) =>
        ConvertKeepsRepeat(init, last, e.key);
        Result.Failure(e)
      case Success(m) =>
        if last.name in m then
          ConvertRepeat(init, last, m);
          Result.Failure(DuplicateKey(last.name))
        else
          ConvertAdd(init, last, m);
          Success(m[last.name := last.content])
  }

  /** `m` maps exactly the names of `items` to their contents. */
  ghost predicate Converts(items: seq<ConfigStoreItem>, m: map<string, string>) {
    (forall i | 0 <= i < |items| :: items[i].name in m && m[items[i].name] == items[i].content) &&
    (forall k | k in m :: exists i | 0 <= i < |items| :: items[i].name == k)
  }

  /** Two items share the name `key`. */
  ghost predicate Repeats(items: seq<ConfigStoreItem>, key: string) {
    exists i, j | 0 <= i < j < |items| :: items[i].name == items[j].name == key
  }

  /** A repeat among the earlier items stays a repeat. */
  lemma ConvertKeepsRepeat(init: seq<ConfigStoreItem>, last: ConfigStoreItem, key: string)
    requires Repeats(init, key)
    ensures Repeats(init + [last], key) && !NamesDistinct(init + [last])
  {
    var i, j :| 0 <= i < j < |init| && init[i].name == init[j].name == key;
    assert (init + [last])[i] == init[i] && (init + [last])[j] == init[j];
  }

  /** An item whose name is already mapped repeats an earlier one. */
  lemma ConvertRepeat(init: seq<ConfigStoreItem>, last: ConfigStoreItem, m: map<string, string>)
    requires Converts(init, m) && last.name in m
    ensures Repeats(init + [last], last.name) && !NamesDistinct(init + [last])
  {
    var items := init + [last];
    var i :| 0 <= i < |init| && init[i].name == last.name;
    assert items[i] == init[i] && items[|init|] == last;
  }

  /** An item with a new name is mapped to its content. */
  lemma ConvertAdd(init: seq<ConfigStoreItem>, last: ConfigStoreItem, m: map<string, string>)
    requires Converts(init, m) && NamesDistinct(init) && last.name !in m
    ensures Converts(init + [last], m[last.name := last.content]) && NamesDistinct(init + [last])
  {
    var items := init + [last];
    assert forall i | 0 <= i < |init| :: items[i] == init[i];
    assert items[|init|] == last;
  }
}
