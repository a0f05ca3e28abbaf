/** The keybindings-document editor and suppression builder
    (`src/disableKeybinding.ts`): recognise the entries this extension
    inserted, strip them, compute the default keybindings to suppress, append
    one suppression entry per keybinding, and write the result after a backup.
    Regular-expression matching is the parameter `m`. */
module DisableKeybinding {
  import opened Wrappers
  import opened Sequences
  import opened JsonTree
  import opened DefaultKeybinding
  import Backup

  /** The marker value of the `registeredBy` field of inserted entries. */
  const REGISTERED_BY := "cormoran.disable-default-keybinding"

  datatype Error = ParseFailed | NotArray | EditRejected | BackupFailed(cause: Backup.FsError)

  /** `m(pattern, subject)` stands for `subject.match(pattern) !== null`. */
  type Matcher = (string, string) -> bool

  // ---------------------------------------------------------------------
  // Reading entries

  /** Property `i` is the first one named `key`. */
  ghost predicate IsFirstWithKey(props: seq<(string, Node)>, key: string, i: int)
  {
    0 <= i < |props| && props[i].0 == key && forall j :: 0 <= j < i ==> props[j].0 != key
  }

  /** `children.find(p => p.children[0].value === key)`: the index of the
      first property named `key`. */
  function FindProperty(props: seq<(string, Node)>, key: string): (r: Option<nat>)
    ensures r.Some? ==> r.value < |props|
  {
    if |props| == 0 then None
    else if props[0].0 == key then Some(0)
    else
      match FindProperty(props[1..], key)
      case None => None
      case Some(k) => Some(k + 1)
  }

  /** `FindProperty` finds the first property named `key`, and finds nothing
      exactly when no property has that name. */
  lemma {:induction false} FindPropertyIsFirst(props: seq<(string, Node)>, key: string)
    ensures FindProperty(props, key).Some? ==> IsFirstWithKey(props, key, FindProperty(props, key).value)
    ensures FindProperty(props, key).None? ==> forall i :: 0 <= i < |props| ==> props[i].0 != key
  {
    if |props| > 0 && props[0].0 != key {
      FindPropertyIsFirst(props[1..], key);
      assert forall i :: 1 <= i < |props| ==> props[i] == props[1..][i - 1];
    }
  }

  /** The first property named `key` is the one `FindProperty` returns. */
  lemma {:induction false} FindFirst(props: seq<(string, Node)>, key: string, i: nat)
    requires IsFirstWithKey(props, key, i)
    ensures FindProperty(props, key) == Some(i)
  {
    if i > 0 {
      FindFirst(props[1..], key, i - 1);
    }
  }

  /** `getObjectNodeValue`: the string value of the first property named
      `key`; `None` for a node that is not an object, for a missing key, and
      when that first property's value is not a string. */
  function GetObjectNodeValue(node: Node, key: string): Option<string>
  {
    match node
    case Object(props) =>
      (match FindProperty(props, key)
       case Some(i) => if props[i].1.Str? then Some(props[i].1.value) else None
       case None => None)
    case _ => None
  }

  /** `GetObjectNodeValue` yields the value of the first property named
      `key` exactly when the node is an object and that value is a string. */
  lemma ObjectNodeValueIsFirstString(node: Node, key: string)
    ensures !node.Object? ==> GetObjectNodeValue(node, key).None?
    ensures GetObjectNodeValue(node, key).Some? ==>
      exists i :: IsFirstWithKey(node.props, key, i) && node.props[i].1 == Str(GetObjectNodeValue(node, key).value)
    ensures node.Object? && GetObjectNodeValue(node, key).None? ==>
      forall i :: IsFirstWithKey(node.props, key, i) ==> !node.props[i].1.Str?
  {
    if node.Object? {
      FindPropertyIsFirst(node.props, key);
      var f := FindProperty(node.props, key);
      if f.Some? {
        forall i | IsFirstWithKey(node.props, key, i) ensures i == f.value { }
      }
    }
  }

  /** `isInsertedByThisExtension`: an object with string `key`, `command` and
      `extensionId` and `registeredBy` equal to the marker. */
  predicate IsInsertedByThisExtension(node: Node)
  {
    && node.Object?
    && GetObjectNodeValue(node, "key").Some?
    && GetObjectNodeValue(node, "command").Some?
    && GetObjectNodeValue(node, "extensionId").Some?
    && GetObjectNodeValue(node, "registeredBy") == Some(REGISTERED_BY)
  }

  predicate NotInsertedByThisExtension(node: Node)
  {
    !IsInsertedByThisExtension(node)
  }

  /** A node that lacks a string-valued `key`, `command`, `extensionId` or
      `registeredBy` property is never taken for an inserted entry. */
  lemma MissingFieldNeverInserted(node: Node, field: string)
    requires field == "key" || field == "command" || field == "extensionId" || field == "registeredBy"
    requires node.Object? ==> forall i :: 0 <= i < |node.props| ==> !(node.props[i].0 == field && node.props[i].1.Str?)
    ensures !IsInsertedByThisExtension(node)
  {
    ObjectNodeValueIsFirstString(node, field);
    if node.Object? {
      assert GetObjectNodeValue(node, field).None?;
    }
  }

  /** An inserted entry is an object carrying the marker property and string
      `key`, `command` and `extensionId` properties. */
  lemma InsertedHasFields(node: Node)
    requires IsInsertedByThisExtension(node)
    ensures node.Object?
    ensures exists i :: 0 <= i < |node.props| && node.props[i] == ("registeredBy", Str(REGISTERED_BY))
    ensures exists i :: 0 <= i < |node.props| && node.props[i].0 == "key" && node.props[i].1.Str?
    ensures exists i :: 0 <= i < |node.props| && node.props[i].0 == "command" && node.props[i].1.Str?
    ensures exists i :: 0 <= i < |node.props| && node.props[i].0 == "extensionId" && node.props[i].1.Str?
  {
    ObjectNodeValueIsFirstString(node, "registeredBy");
    ObjectNodeValueIsFirstString(node, "key");
    ObjectNodeValueIsFirstString(node, "command");
    ObjectNodeValueIsFirstString(node, "extensionId");
    var i :| IsFirstWithKey(node.props, "registeredBy", i) && node.props[i].1 == Str(REGISTERED_BY);
    var k :| IsFirstWithKey(node.props, "key", k) && node.props[k].1.Str?;
    var c :| IsFirstWithKey(node.props, "command", c) && node.props[c].1.Str?;
    var e :| IsFirstWithKey(node.props, "extensionId", e) && node.props[e].1.Str?;
  }

  /** The inserted-entry test read property by property: a node counts as
      inserted exactly when it is an object whose first `key`, `command` and
      `extensionId` properties hold strings and whose first `registeredBy`
      property holds the marker. */
  lemma InsertedIffFirstProperties(node: Node)
    ensures IsInsertedByThisExtension(node) <==>
      && node.Object?
      && (exists i :: IsFirstWithKey(node.props, "key", i) && node.props[i].1.Str?)
      && (exists i :: IsFirstWithKey(node.props, "command", i) && node.props[i].1.Str?)
      && (exists i :: IsFirstWithKey(node.props, "extensionId", i) && node.props[i].1.Str?)
      && (exists i :: IsFirstWithKey(node.props, "registeredBy", i) && node.props[i].1 == Str(REGISTERED_BY))
  {
    if node.Object? {
      var props := node.props;
      ObjectNodeValueIsFirstString(node, "key");
      ObjectNodeValueIsFirstString(node, "command");
      ObjectNodeValueIsFirstString(node, "extensionId");
      ObjectNodeValueIsFirstString(node, "registeredBy");
      forall key: string, i | IsFirstWithKey(props, key, i) && props[i].1.Str?
        ensures GetObjectNodeValue(node, key) == Some(props[i].1.value)
      {
        FindFirst(props, key, i);
      }
    }
  }

  // ---------------------------------------------------------------------
  // Pattern matching

  /** `keybinding.extensionId?.match(re) !== null`: an absent id gives
      `undefined`, which is not `null`, so it counts as a match. */
  function ExtensionIdMatches(extensionId: Option<string>, pattern: string, m: Matcher): (r: bool)
    ensures extensionId.None? ==> r
    ensures extensionId.Some? ==> (r <==> m(pattern, extensionId.value))
  {
    match extensionId
    case None => true
    case Some(id) => m(pattern, id)
  }

  /** `isKeybindingRegisteredByExtension`: some pattern matches the
      keybinding's extension id (`map`, then `reduce(||, false)`). */
  function IsKeybindingRegisteredByExtension(kb: Keybinding, extensionsRegex: seq<string>, m: Matcher): (r: bool)
    ensures r <==> exists i :: 0 <= i < |extensionsRegex| && ExtensionIdMatches(kb.extensionId, extensionsRegex[i], m)
  {
    var flags := seq(|extensionsRegex|, i requires 0 <= i < |extensionsRegex| =>
      ExtensionIdMatches(kb.extensionId, extensionsRegex[i], m));
    assert forall i :: 0 <= i < |extensionsRegex| ==> flags[i] == ExtensionIdMatches(kb.extensionId, extensionsRegex[i], m);
    OrFold(flags)
  }

  /** `isKeybindingCommandMatches`: some pattern matches the command. */
  function IsKeybindingCommandMatches(kb: Keybinding, commandsRegex: seq<string>, m: Matcher): (r: bool)
    ensures r <==> exists i :: 0 <= i < |commandsRegex| && m(commandsRegex[i], kb.command)
  {
    var flags := seq(|commandsRegex|, i requires 0 <= i < |commandsRegex| => m(commandsRegex[i], kb.command));
    assert forall i :: 0 <= i < |commandsRegex| ==> flags[i] == m(commandsRegex[i], kb.command);
    OrFold(flags)
  }

  /** An empty pattern list matches nothing; a non-empty extension pattern
      list matches every keybinding without an extension id, whatever the
      patterns and the matcher. */
  lemma PatternListEdgeCases(kb: Keybinding, patterns: seq<string>, m: Matcher)
    ensures |patterns| == 0 ==> !IsKeybindingRegisteredByExtension(kb, patterns, m)
    ensures |patterns| == 0 ==> !IsKeybindingCommandMatches(kb, patterns, m)
    ensures |patterns| > 0 && kb.extensionId.None? ==> IsKeybindingRegisteredByExtension(kb, patterns, m)
  {
    if |patterns| > 0 && kb.extensionId.None? {
      assert ExtensionIdMatches(kb.extensionId, patterns[0], m);
    }
  }

  // ---------------------------------------------------------------------
  // The suppression set

  /** Kept for suppression: matched by no extension pattern and no command pattern. */
  predicate Suppressible(kb: Keybinding, extensionsToPreserve: seq<string>, commandsToPreserve: seq<string>, m: Matcher)
  {
    !IsKeybindingRegisteredByExtension(kb, extensionsToPreserve, m) &&
    !IsKeybindingCommandMatches(kb, commandsToPreserve, m)
  }

  /** The keybindings to disable: the defaults without those whose extension
      id matches a pattern, then without those whose command matches one. */
  function KeybindingsToDisable(defaults: seq<Keybinding>, extensionsToPreserve: seq<string>,
                                commandsToPreserve: seq<string>, m: Matcher): (r: seq<Keybinding>)
    ensures forall i :: 0 <= i < |r| ==> r[i] in defaults && Suppressible(r[i], extensionsToPreserve, commandsToPreserve, m)
    ensures forall i :: 0 <= i < |defaults| && Suppressible(defaults[i], extensionsToPreserve, commandsToPreserve, m) ==>
      defaults[i] in r
  {
    var byExtension := Filter(defaults, kb => !IsKeybindingRegisteredByExtension(kb, extensionsToPreserve, m));
    var r := Filter(byExtension, kb => !IsKeybindingCommandMatches(kb, commandsToPreserve, m));
    FilterMembers(defaults, kb => !IsKeybindingRegisteredByExtension(kb, extensionsToPreserve, m));
    FilterMembers(byExtension, kb => !IsKeybindingCommandMatches(kb, commandsToPreserve, m));
    assert forall i :: 0 <= i < |defaults| && Suppressible(defaults[i], extensionsToPreserve, commandsToPreserve, m) ==>
      defaults[i] in r by {
      forall i | 0 <= i < |defaults| && Suppressible(defaults[i], extensionsToPreserve, commandsToPreserve, m)
        ensures defaults[i] in r
      {
        var j :| 0 <= j < |byExtension| && byExtension[j] == defaults[i];
      }
    }
    r
  }

  /** The two filters in a row are one order-preserving filter by `Suppressible`. */
  lemma KeybindingsToDisableIsOneFilter(defaults: seq<Keybinding>, extensionsToPreserve: seq<string>,
                                        commandsToPreserve: seq<string>, m: Matcher)
    ensures KeybindingsToDisable(defaults, extensionsToPreserve, commandsToPreserve, m) ==
      Filter(defaults, kb => Suppressible(kb, extensionsToPreserve, commandsToPreserve, m))
  {
    FilterFilter(defaults,
      kb => !IsKeybindingRegisteredByExtension(kb, extensionsToPreserve, m),
      kb => !IsKeybindingCommandMatches(kb, commandsToPreserve, m),
      kb => Suppressible(kb, extensionsToPreserve, commandsToPreserve, m));
  }

  /** Two defaults from extensions `a.b` and `c.d`, the extension pattern
      `a\..*` (matching `a.b` and not `c.d`) and no command pattern: only the
      `c.d` keybinding is suppressed. */
  lemma PreservationExample(m: Matcher)
    requires m("a\\..*", "a.b") && !m("a\\..*", "c.d")
    ensures KeybindingsToDisable(
      [Keybinding("", "cmd1", Some("a.b")), Keybinding("", "cmd2", Some("c.d"))], ["a\\..*"], [], m) ==
      [Keybinding("", "cmd2", Some("c.d"))]
  {
    var a, c := Keybinding("", "cmd1", Some("a.b")), Keybinding("", "cmd2", Some("c.d"));
    assert IsKeybindingRegisteredByExtension(a, ["a\\..*"], m) by {
      assert ExtensionIdMatches(a.extensionId, ["a\\..*"][0], m);
    }
    assert !IsKeybindingRegisteredByExtension(c, ["a\\..*"], m);
    assert [a, c][1..] == [c];
    assert [c][1..] == [];
  }

  // ---------------------------------------------------------------------
  // Stripping inserted entries

  /** The elements that stripping keeps: the non-inserted ones, in order. */
  function Kept(children: seq<Node>): seq<Node>
  {
    Filter(children, NotInsertedByThisExtension)
  }

  /** `filterOutKeybindingsRegisteredByThisExtension`. A text without a value
      and a root that is not an array are errors. Otherwise the indices of the
      inserted elements are collected in ascending order and removed from the
      highest down, one edit each, so that every index still names the element
      it was computed for; the result keeps exactly the non-inserted elements,
      in their order. */
  method FilterOutKeybindingsRegisteredByThisExtension(doc: Doc) returns (r: Result<Doc, Error>)
    ensures doc.None? ==> r == Failure(ParseFailed)
    ensures doc.Some? && !doc.value.Array? ==> r == Failure(NotArray)
    ensures doc.Some? && doc.value.Array? ==> r == Success(Some(Array(Kept(doc.value.children))))
  {
    if doc.None? {
      return Failure(ParseFailed);
    }
    if !doc.value.Array? {
      return Failure(NotArray);
    }
    var children := doc.value.children;
    var indicesToDelete := FilterIndices(children, IsInsertedByThisExtension, 0);
    var current := children;
    var j := |indicesToDelete|;
    ghost var p: nat := |children|;
    while j > 0
      invariant 0 <= j <= |indicesToDelete|
      invariant p <= |children|
      invariant j < |indicesToDelete| ==> p == indicesToDelete[j]
      invariant j == |indicesToDelete| ==> p == |children|
      invariant current == children[..p] + Kept(children[p..])
    {
      j := j - 1;
      var i := indicesToDelete[j];
      DeleteIndexBefore(children, IsInsertedByThisExtension, NotInsertedByThisExtension, j + 1, p);
      current := RemoveElement(current, i);
      p := i;
    }
    DeletedAllIndices(children, IsInsertedByThisExtension, NotInsertedByThisExtension, p);
    return Success(Some(Array(current)));
  }

  /** Stripping keeps every non-inserted element and only those, in their
      original relative order: element `k` of the result is the element of
      `children` at index `k` of an ascending index list that holds every
      non-inserted position. */
  lemma StrippedAreUserEntriesInOrder(children: seq<Node>)
    ensures var idx := FilterIndices(children, NotInsertedByThisExtension, 0);
      && |Kept(children)| == |idx|
      && (forall k :: 0 <= k < |idx| ==> Kept(children)[k] == children[idx[k]])
      && (forall k, n :: 0 <= k < n < |idx| ==> idx[k] < idx[n])
      && (forall i :: 0 <= i < |children| && NotInsertedByThisExtension(children[i]) ==> i in idx)
      && (forall k :: 0 <= k < |idx| ==> NotInsertedByThisExtension(children[idx[k]]))
  {
    FilterAtIndices(children, NotInsertedByThisExtension, 0);
    assert children[0..] == children;
  }

  // ---------------------------------------------------------------------
  // Appending entries

  /** The command written for a keybinding: `-` prepended when disabling. */
  function EntryCommand(kb: Keybinding, disable: bool): string
  {
    (if disable then "-" else "") + kb.command
  }

  /** The object `addKeybindingsToJSON` inserts for one keybinding, as
      `JSON.stringify` writes it: `key`, `command`, `extensionId` (left out
      when absent) and the marker. */
  function NewEntry(kb: Keybinding, disable: bool): Node
  {
    Object(
      [("key", Str(kb.key)), ("command", Str(EntryCommand(kb, disable)))] +
      (if kb.extensionId.Some? then [("extensionId", Str(kb.extensionId.value))] else []) +
      [("registeredBy", Str(REGISTERED_BY))])
  }

  /** The fields of an appended entry in the order `JSON.stringify` writes
      them, with `extensionId` left out when it is absent. */
  lemma NewEntryFieldOrder(kb: Keybinding, disable: bool)
    ensures var props := NewEntry(kb, disable).props;
      && |props| == (if kb.extensionId.Some? then 4 else 3)
      && props[0] == ("key", Str(kb.key))
      && props[1].0 == "command"
      && (kb.extensionId.Some? ==> props[2] == ("extensionId", Str(kb.extensionId.value)))
      && props[|props| - 1] == ("registeredBy", Str(REGISTERED_BY))
  {
  }

  function NewEntries(keybindings: seq<Keybinding>, disable: bool): seq<Node>
  {
    seq(|keybindings|, k requires 0 <= k < |keybindings| => NewEntry(keybindings[k], disable))
  }

  /** Read back, an appended entry has the keybinding's key and id, its
      command with `-` prepended exactly when disabling, and the marker; it
      counts as inserted by this extension exactly when the keybinding has an
      extension id. */
  lemma NewEntryReadBack(kb: Keybinding, disable: bool)
    ensures GetObjectNodeValue(NewEntry(kb, disable), "key") == Some(kb.key)
    ensures GetObjectNodeValue(NewEntry(kb, disable), "command") ==
      Some(if disable then "-" + kb.command else kb.command)
    ensures GetObjectNodeValue(NewEntry(kb, disable), "extensionId") == kb.extensionId
    ensures GetObjectNodeValue(NewEntry(kb, disable), "registeredBy") == Some(REGISTERED_BY)
    ensures IsInsertedByThisExtension(NewEntry(kb, disable)) <==> kb.extensionId.Some?
  {
    var props := NewEntry(kb, disable).props;
    FindFirst(props, "key", 0);
    FindFirst(props, "command", 1);
    if kb.extensionId.Some? {
      assert props == [("key", Str(kb.key)), ("command", Str(EntryCommand(kb, disable))),
        ("extensionId", Str(kb.extensionId.value)), ("registeredBy", Str(REGISTERED_BY))];
      FindFirst(props, "extensionId", 2);
      FindFirst(props, "registeredBy", 3);
    } else {
      assert props == [("key", Str(kb.key)), ("command", Str(EntryCommand(kb, disable))),
        ("registeredBy", Str(REGISTERED_BY))];
      assert FindProperty(props[2..], "extensionId") == None;
      assert FindProperty(props[1..], "extensionId") == None;
      FindFirst(props, "registeredBy", 2);
    }
    assert EntryCommand(kb, disable) == if disable then "-" + kb.command else kb.command;
  }

  predicate ArrayOrEmpty(doc: Doc)
  {
    doc.None? || doc.value.Array?
  }

  /** The root's elements; none for a text without a value. */
  function Elements(doc: Doc): seq<Node>
    requires ArrayOrEmpty(doc)
  {
    if doc.None? then [] else doc.value.children
  }

  /** `parseTree(text)?.children?.length || 0`: the number of children of
      whatever the root is, properties included. */
  function StartIndex(doc: Doc): nat
  {
    match doc
    case None => 0
    case Some(root) => ChildCount(root)
  }

  /** `addKeybindingsToJSON`: one insertion per keybinding, in input order, at
      indices n, n + 1, ... where n counts the root's children. The original
      elements stay first and unchanged, followed by one entry per keybinding.
      jsonc-parser rejects an index insertion into a root that is not an
      array. */
  method AddKeybindingsToJSON(doc: Doc, keybindings: seq<Keybinding>, disable: bool) returns (r: Result<Doc, Error>)
    ensures |keybindings| == 0 ==> r == Success(doc)
    ensures |keybindings| > 0 && !ArrayOrEmpty(doc) ==> r == Failure(EditRejected)
    ensures |keybindings| > 0 && ArrayOrEmpty(doc) ==>
      r == Success(Some(Array(Elements(doc) + NewEntries(keybindings, disable))))
  {
    var newText := doc;
    var i := StartIndex(doc);
    var k := 0;
    assert NewEntries(keybindings[..0], disable) == [];
    while k < |keybindings|
      invariant 0 <= k <= |keybindings|
      invariant i == StartIndex(doc) + k
      invariant k == 0 ==> newText == doc
      invariant k > 0 ==> ArrayOrEmpty(doc) && newText == Some(Array(Elements(doc) + NewEntries(keybindings[..k], disable)))
    {
      assert ArrayOrEmpty(doc) ==> StartIndex(doc) == |Elements(doc)|;
      assert k > 0 ==> i == |newText.value.children|;
      var inserted := InsertElement(newText, i, NewEntry(keybindings[k], disable));
      if inserted.None? {
        return Failure(EditRejected);
      }
      assert NewEntries(keybindings[..k + 1], disable) == NewEntries(keybindings[..k], disable) + [NewEntry(keybindings[k], disable)];
      assert Elements(doc) + NewEntries(keybindings[..k + 1], disable) ==
        (Elements(doc) + NewEntries(keybindings[..k], disable)) + [NewEntry(keybindings[k], disable)];
      assert inserted.value == Array(Elements(doc) + NewEntries(keybindings[..k + 1], disable));
      newText := Some(inserted.value);
      i := i + 1;
      k := k + 1;
    }
    assert keybindings[..k] == keybindings;
    return Success(newText);
  }

  // ---------------------------------------------------------------------
  // The new document

  /** What the new document is: the non-inserted elements of the current
      array in order, then one suppression entry per keybinding to disable. */
  function NewKeybindings(doc: Doc, extensionsToPreserve: seq<string>, commandsToPreserve: seq<string>,
                          extensions: seq<Extension>, platform: string, m: Matcher): Result<Doc, Error>
  {
    match doc
    case None => Failure(ParseFailed)
    case Some(Array(children)) =>
      var defaults := CollectAllDefaultKeybindings(extensions, platform);
      var toDisable := KeybindingsToDisable(defaults, extensionsToPreserve, commandsToPreserve, m);
      Success(Some(Array(Kept(children) + NewEntries(toDisable, true))))
    case Some(_) => Failure(NotArray)
  }

  /** `buildNewKeybindingsJSONString`: strip, compute the keybindings to
      disable from the defaults, append them as suppression entries. */
  method BuildNewKeybindingsJSONString(doc: Doc, extensionsToPreserve: seq<string>, commandsToPreserve: seq<string>,
                                       extensions: seq<Extension>, platform: string, m: Matcher)
    returns (r: Result<Doc, Error>)
    ensures r == NewKeybindings(doc, extensionsToPreserve, commandsToPreserve, extensions, platform, m)
  {
    var stripped := FilterOutKeybindingsRegisteredByThisExtension(doc);
    if stripped.Failure? {
      return Failure(stripped.error);
    }
    var allDefaultKeybindings := CollectAllDefaultKeybindings(extensions, platform);
    var keybindingsToDisable := KeybindingsToDisable(allDefaultKeybindings, extensionsToPreserve, commandsToPreserve, m);
    r := AddKeybindingsToJSON(stripped.value, keybindingsToDisable, true);
    if |keybindingsToDisable| == 0 {
      assert Kept(doc.value.children) + NewEntries(keybindingsToDisable, true) == Kept(doc.value.children);
    }
  }

  /** The suppression entries the builder appends are all stripped by the next run. */
  lemma SuppressionEntriesAreInserted(extensions: seq<Extension>, platform: string, extensionsToPreserve: seq<string>,
                                      commandsToPreserve: seq<string>, m: Matcher)
    ensures var toDisable := KeybindingsToDisable(CollectAllDefaultKeybindings(extensions, platform),
                                                  extensionsToPreserve, commandsToPreserve, m);
      Kept(NewEntries(toDisable, true)) == []
  {
    var defaults := CollectAllDefaultKeybindings(extensions, platform);
    var toDisable := KeybindingsToDisable(defaults, extensionsToPreserve, commandsToPreserve, m);
    var entries := NewEntries(toDisable, true);
    forall i | 0 <= i < |entries| ensures !NotInsertedByThisExtension(entries[i]) {
      var j :| 0 <= j < |defaults| && defaults[j] == toDisable[i];
      NewEntryReadBack(toDisable[i], true);
    }
    FilterDropsAll(entries, NotInsertedByThisExtension);
  }

  /** Appending entries for keybindings that all have an extension id and
      then stripping gives what stripping alone gives. */
  lemma StripAfterAppend(children: seq<Node>, keybindings: seq<Keybinding>, disable: bool)
    requires forall k :: 0 <= k < |keybindings| ==> keybindings[k].extensionId.Some?
    ensures Kept(children + NewEntries(keybindings, disable)) == Kept(children)
  {
    var entries := NewEntries(keybindings, disable);
    forall k | 0 <= k < |entries| ensures !NotInsertedByThisExtension(entries[k]) {
      NewEntryReadBack(keybindings[k], disable);
    }
    FilterDropsAll(entries, NotInsertedByThisExtension);
    FilterAppend(children, entries, NotInsertedByThisExtension);
  }

  /** Re-running on its own output with the same settings and extensions
      produces the same document: no suppression entry accumulates. */
  lemma RerunIsUnchanged(doc: Doc, extensionsToPreserve: seq<string>, commandsToPreserve: seq<string>,
                         extensions: seq<Extension>, platform: string, m: Matcher)
    requires NewKeybindings(doc, extensionsToPreserve, commandsToPreserve, extensions, platform, m).Success?
    ensures var once := NewKeybindings(doc, extensionsToPreserve, commandsToPreserve, extensions, platform, m);
      NewKeybindings(once.value, extensionsToPreserve, commandsToPreserve, extensions, platform, m) == once
  {
    var children := doc.value.children;
    var defaults := CollectAllDefaultKeybindings(extensions, platform);
    var toDisable := KeybindingsToDisable(defaults, extensionsToPreserve, commandsToPreserve, m);
    var entries := NewEntries(toDisable, true);
    SuppressionEntriesAreInserted(extensions, platform, extensionsToPreserve, commandsToPreserve, m);
    FilterAppend(Kept(children), entries, NotInsertedByThisExtension);
    FilterIdempotent(children, NotInsertedByThisExtension);
    assert Kept(Kept(children) + entries) == Kept(children);
  }

  /** User entries survive: every non-inserted element of the current array
      is in the new document, ahead of all the suppression entries. */
  lemma UserEntriesSurvive(doc: Doc, extensionsToPreserve: seq<string>, commandsToPreserve: seq<string>,
                           extensions: seq<Extension>, platform: string, m: Matcher, i: nat)
    requires doc.Some? && doc.value.Array? && i < |doc.value.children|
    requires NotInsertedByThisExtension(doc.value.children[i])
    ensures var out := NewKeybindings(doc, extensionsToPreserve, commandsToPreserve, extensions, platform, m);
      && out.Success? && out.value.Some? && out.value.value.Array?
      && doc.value.children[i] in out.value.value.children[..|Kept(doc.value.children)|]
  {
    var kept := Kept(doc.value.children);
    var out := NewKeybindings(doc, extensionsToPreserve, commandsToPreserve, extensions, platform, m);
    var toDisable := KeybindingsToDisable(CollectAllDefaultKeybindings(extensions, platform),
                                          extensionsToPreserve, commandsToPreserve, m);
    FilterMembers(doc.value.children, NotInsertedByThisExtension);
    assert out.value.value.children[..|kept|] == kept;
  }

  // ---------------------------------------------------------------------
  // Writing the file

  /** `disableDefaultKeybindings`: build the new document from the current
      keybindings.json; when it differs, consult the decider (`decision` is
      its answer, `consulted` says whether it was asked); when that answers
      yes, back up the current file and then write the new document. The
      result is true exactly when the file was written. */
  method DisableDefaultKeybindings(fs: Backup.FileStore, extensionsToPreserve: seq<string>, commandsToPreserve: seq<string>,
                                   extensions: seq<Extension>, platform: string, m: Matcher,
                                   decision: bool, timestamp: Backup.Timestamp)
    returns (r: Result<bool, Error>, consulted: bool)
    modifies fs
    ensures var built := NewKeybindings(old(fs.keybindings), extensionsToPreserve, commandsToPreserve, extensions, platform, m);
      consulted <==> built.Success? && built.value != old(fs.keybindings)
    ensures var built := NewKeybindings(old(fs.keybindings), extensionsToPreserve, commandsToPreserve, extensions, platform, m);
      built.Failure? ==> r == Failure(built.error)
    ensures r != Success(true) ==> fs.keybindings == old(fs.keybindings) && fs.backupDir == old(fs.backupDir)
    ensures r == Success(true) <==>
      consulted && decision &&
      exists i :: 0 <= i < Backup.MAX_CANDIDATES && Backup.BackupFileName(timestamp, i) !in old(fs.backupDir)
    ensures consulted && !decision ==> r == Success(false)
    ensures var built := NewKeybindings(old(fs.keybindings), extensionsToPreserve, commandsToPreserve, extensions, platform, m);
      built.Success? && !consulted ==> r == Success(false)
    ensures
      (&& consulted && decision
       && forall i :: 0 <= i < Backup.MAX_CANDIDATES ==> Backup.BackupFileName(timestamp, i) in old(fs.backupDir))
      ==> r == Failure(BackupFailed(Backup.FileExists(Backup.BackupFileName(timestamp, Backup.MAX_CANDIDATES - 1))))
    ensures r == Success(true) ==>
      && fs.keybindings == NewKeybindings(old(fs.keybindings), extensionsToPreserve, commandsToPreserve, extensions, platform, m).value
      && exists name :: Backup.BackedUpToFirstFree(old(fs.backupDir), fs.backupDir, old(fs.keybindings), timestamp, name)
  {
    var currentKeybindings := fs.keybindings;
    var built := BuildNewKeybindingsJSONString(currentKeybindings, extensionsToPreserve, commandsToPreserve, extensions, platform, m);
    if built.Failure? {
      return Failure(built.error), false;
    }
    var newKeybindings := built.value;
    consulted := currentKeybindings != newKeybindings;
    if consulted && decision {
      var backup := fs.BackupKeybindingFile(timestamp);
      if backup.Failure? {
        return Failure(BackupFailed(backup.error)), consulted;
      }
      ghost var saved := fs.backupDir;
      assert Backup.BackedUpToFirstFree(old(fs.backupDir), saved, currentKeybindings, timestamp, backup.value);
      fs.keybindings := newKeybindings;
      assert fs.backupDir == saved;
      return Success(true), consulted;
    }
    return Success(false), consulted;
  }
}
