/** The default keybindings contributed by installed extensions
    (`src/defaultKeybinding.ts`). The host's extension list and the process
    platform are parameters. */
module DefaultKeybinding {
  import opened Wrappers
  import opened Sequences

  /** One keybinding record. `extensionId` is typed as always present in the
      source; the matchers read it with `?.`, so the model lets it be absent. */
  datatype Keybinding = Keybinding(key: string, command: string, extensionId: Option<string>)

  /** One element of an extension's `contributes.keybindings` list: `null` or
      `undefined`, or an object, given by its string-valued fields. */
  datatype Contribution = Null | Item(fields: map<string, string>)

  /** An installed extension: its id and its `contributes.keybindings` list,
      `None` when the manifest has none. */
  datatype Extension = Extension(id: string, keybindings: Option<seq<Contribution>>)

  /** The platform-specific key field for `process.platform`. */
  function OsKey(platform: string): (r: Option<string>)
    ensures r.Some? <==> platform == "win32" || platform == "darwin" || platform == "linux"
  {
    if platform == "win32" then Some("win")
    else if platform == "darwin" then Some("mac")
    else if platform == "linux" then Some("linux")
    else None
  }

  /** `keybinding[osKey && osKey in keybinding ? osKey : "key"]`. */
  function KeyOf(fields: map<string, string>, osKey: Option<string>): (r: string)
    requires "key" in fields
    ensures r in fields.Values
    ensures osKey.Some? && osKey.value in fields ==> r == fields[osKey.value]
    ensures osKey.None? || osKey.value !in fields ==> r == fields["key"]
  {
    if osKey.Some? && osKey.value in fields then fields[osKey.value] else fields["key"]
  }

  /** The record built from one contribution, `None` for `null` and for an
      object lacking `"command"` or `"key"`. */
  function ToKeybinding(c: Contribution, osKey: Option<string>, id: string): (r: Option<Keybinding>)
    ensures r.Some? <==> c.Item? && "command" in c.fields && "key" in c.fields
    ensures r.Some? ==> r.value.command == c.fields["command"] && r.value.extensionId == Some(id)
    ensures r.Some? ==> r.value.key in c.fields.Values
  {
    if c.Item? && "command" in c.fields && "key" in c.fields
    then Some(Keybinding(KeyOf(c.fields, osKey), c.fields["command"], Some(id)))
    else None
  }

  /** The contribution yields a record with a non-empty command. */
  predicate YieldsRecord(c: Contribution, osKey: Option<string>, id: string)
  {
    ToKeybinding(c, osKey, id).Some? && HasCommand(ToKeybinding(c, osKey, id).value)
  }

  predicate HasCommand(kb: Keybinding)
  {
    |kb.command| > 0
  }

  predicate IsPresent(c: Contribution)
  {
    !c.Null?
  }

  function Contributions(e: Extension): seq<Contribution>
  {
    if e.keybindings.Some? then e.keybindings.value else []
  }

  /** `cs.map(...)` with `ToKeybinding`. */
  function MapToKeybinding(cs: seq<Contribution>, osKey: Option<string>, id: string): seq<Option<Keybinding>>
  {
    seq(|cs|, i requires 0 <= i < |cs| => ToKeybinding(cs[i], osKey, id))
  }

  /** The records one extension's contributions map to: the non-null
      contributions mapped by `ToKeybinding`, the absent results dropped, in
      contribution order. */
  function Records(e: Extension, osKey: Option<string>): (r: seq<Keybinding>)
    ensures forall i :: 0 <= i < |r| ==>
      exists c :: c in Contributions(e) && ToKeybinding(c, osKey, e.id) == Some(r[i])
    ensures forall c :: c in Contributions(e) && ToKeybinding(c, osKey, e.id).Some? ==>
      ToKeybinding(c, osKey, e.id).value in r
  {
    var present := Filter(Contributions(e), IsPresent);
    FilterMembers(Contributions(e), IsPresent);
    var mapped := MapToKeybinding(present, osKey, e.id);
    var r := Present(mapped);
    assert forall i :: 0 <= i < |r| ==>
      exists c :: c in Contributions(e) && ToKeybinding(c, osKey, e.id) == Some(r[i]) by {
      forall i | 0 <= i < |r|
        ensures exists c :: c in Contributions(e) && ToKeybinding(c, osKey, e.id) == Some(r[i])
      {
        var k :| 0 <= k < |mapped| && mapped[k] == Some(r[i]);
        assert present[k] in Contributions(e);
      }
    }
    assert forall c :: c in Contributions(e) && ToKeybinding(c, osKey, e.id).Some? ==>
      ToKeybinding(c, osKey, e.id).value in r by {
      forall c | c in Contributions(e) && ToKeybinding(c, osKey, e.id).Some?
        ensures ToKeybinding(c, osKey, e.id).value in r
      {
        var j :| 0 <= j < |Contributions(e)| && Contributions(e)[j] == c;
        assert IsPresent(Contributions(e)[j]);
        var k :| 0 <= k < |present| && present[k] == c;
        assert mapped[k] == ToKeybinding(c, osKey, e.id);
      }
    }
    r
  }

  /** What one extension contributes: its records with an empty command
      dropped. Each carries the extension's id and comes from one of its
      contributions; every contribution with `"command"`, `"key"` and a
      non-empty command yields one. */
  function ExtensionKeybindings(e: Extension, osKey: Option<string>): (r: seq<Keybinding>)
    ensures forall i :: 0 <= i < |r| ==> r[i].extensionId == Some(e.id) && |r[i].command| > 0
    ensures forall i :: 0 <= i < |r| ==>
      exists c :: c in Contributions(e) && ToKeybinding(c, osKey, e.id) == Some(r[i])
    ensures forall c :: c in Contributions(e) && YieldsRecord(c, osKey, e.id) ==>
      ToKeybinding(c, osKey, e.id).value in r
  {
    var records := Records(e, osKey);
    var r := Filter(records, HasCommand);
    FilterMembers(records, HasCommand);
    assert forall i :: 0 <= i < |r| ==> r[i].extensionId == Some(e.id) by {
      forall i | 0 <= i < |r| ensures r[i].extensionId == Some(e.id) {
        var c :| c in Contributions(e) && ToKeybinding(c, osKey, e.id) == Some(r[i]);
      }
    }
    assert forall c :: c in Contributions(e) && YieldsRecord(c, osKey, e.id) ==>
      ToKeybinding(c, osKey, e.id).value in r by {
      forall c | c in Contributions(e) && YieldsRecord(c, osKey, e.id)
        ensures ToKeybinding(c, osKey, e.id).value in r
      {
        var kb := ToKeybinding(c, osKey, e.id).value;
        var t :| 0 <= t < |records| && records[t] == kb;
      }
    }
    r
  }

  /** `collectAllDefaultKeybindings`: every extension's records, extension by
      extension (`flatMap`). */
  function CollectAllDefaultKeybindings(extensions: seq<Extension>, platform: string): (r: seq<Keybinding>)
    ensures forall i :: 0 <= i < |r| ==> |r[i].command| > 0 && r[i].extensionId.Some?
    ensures forall i :: 0 <= i < |r| ==> exists k :: 0 <= k < |extensions| && CameFrom(r[i], extensions[k], platform)
  {
    if |extensions| == 0 then []
    else
      var head := ExtensionKeybindings(extensions[0], OsKey(platform));
      var rest := CollectAllDefaultKeybindings(extensions[1..], platform);
      assert forall i :: 0 <= i < |rest| ==>
        exists k :: 0 <= k < |extensions| && CameFrom(rest[i], extensions[k], platform) by {
        forall i | 0 <= i < |rest|
          ensures exists k :: 0 <= k < |extensions| && CameFrom(rest[i], extensions[k], platform)
        {
          var k :| 0 <= k < |extensions[1..]| && CameFrom(rest[i], extensions[1..][k], platform);
          assert extensions[1..][k] == extensions[k + 1];
        }
      }
      assert forall i :: 0 <= i < |head| ==> CameFrom(head[i], extensions[0], platform);
      head + rest
  }

  /** `kb` is the record of one of `e`'s contributions, and carries `e`'s id. */
  ghost predicate CameFrom(kb: Keybinding, e: Extension, platform: string)
  {
    && kb.extensionId == Some(e.id)
    && exists c :: c in Contributions(e) && ToKeybinding(c, OsKey(platform), e.id) == Some(kb)
  }

  /** Every contribution of every extension that yields a record with a
      non-empty command is collected. */
  lemma CollectedAreComplete(extensions: seq<Extension>, platform: string, k: nat, c: Contribution)
    requires k < |extensions| && c in Contributions(extensions[k])
    requires YieldsRecord(c, OsKey(platform), extensions[k].id)
    ensures ToKeybinding(c, OsKey(platform), extensions[k].id).value in CollectAllDefaultKeybindings(extensions, platform)
  {
    var before, at, after := extensions[..k], [extensions[k]], extensions[k + 1..];
    assert extensions == before + (at + after);
    CollectAppend(before, at + after, platform);
    CollectAppend(at, after, platform);
    assert CollectAllDefaultKeybindings(at, platform) == ExtensionKeybindings(extensions[k], OsKey(platform));
  }

  /** Output order is extension order: the records of a list of extensions
      followed by another are the first list's records, then the second's. */
  lemma {:induction false} CollectAppend(a: seq<Extension>, b: seq<Extension>, platform: string)
    ensures CollectAllDefaultKeybindings(a + b, platform) ==
      CollectAllDefaultKeybindings(a, platform) + CollectAllDefaultKeybindings(b, platform)
  {
    if |a| == 0 {
      assert a + b == b;
    } else {
      assert (a + b)[1..] == a[1..] + b;
      assert (a + b)[0] == a[0];
      CollectAppend(a[1..], b, platform);
    }
  }

  /** Within one extension, output order is contribution order: the records
      of contributions `a` followed by `b` are those of `a`, then those of `b`. */
  lemma {:induction false} ContributionOrder(id: string, a: seq<Contribution>, b: seq<Contribution>, osKey: Option<string>)
    ensures ExtensionKeybindings(Extension(id, Some(a + b)), osKey) ==
      ExtensionKeybindings(Extension(id, Some(a)), osKey) + ExtensionKeybindings(Extension(id, Some(b)), osKey)
  {
    var ea, eb, eab := Extension(id, Some(a)), Extension(id, Some(b)), Extension(id, Some(a + b));
    var pa, pb := Filter(a, IsPresent), Filter(b, IsPresent);
    FilterAppend(a, b, IsPresent);
    var ma, mb := MapToKeybinding(pa, osKey, id), MapToKeybinding(pb, osKey, id);
    assert MapToKeybinding(pa + pb, osKey, id) == ma + mb;
    PresentAppend(ma, mb);
    assert Contributions(eab) == a + b;
    assert Records(eab, osKey) == Present(MapToKeybinding(pa + pb, osKey, id));
    var ra, rb := Records(ea, osKey), Records(eb, osKey);
    assert ra == Present(ma) && rb == Present(mb);
    assert Records(eab, osKey) == ra + rb;
    FilterAppend(ra, rb, HasCommand);
  }

  /** An extension without `contributes.keybindings`, or whose every
      contribution is `null`, contributes nothing. */
  lemma NoContributionsNoKeybindings(e: Extension, osKey: Option<string>)
    requires forall c :: c in Contributions(e) ==> c == Null
    ensures ExtensionKeybindings(e, osKey) == []
  {
  }

  /** A contribution with `"command"` and `"key"` and a non-empty command is
      recorded with the platform's key when the platform is known and the
      contribution has that field, and with `"key"` otherwise. */
  lemma ContributionKey(e: Extension, platform: string, c: Contribution)
    requires c in Contributions(e) && c.Item?
    requires "command" in c.fields && "key" in c.fields && |c.fields["command"]| > 0
    ensures OsKey(platform).Some? && OsKey(platform).value in c.fields ==>
      Keybinding(c.fields[OsKey(platform).value], c.fields["command"], Some(e.id))
        in ExtensionKeybindings(e, OsKey(platform))
    ensures !(OsKey(platform).Some? && OsKey(platform).value in c.fields) ==>
      Keybinding(c.fields["key"], c.fields["command"], Some(e.id))
        in ExtensionKeybindings(e, OsKey(platform))
  {
    assert ToKeybinding(c, OsKey(platform), e.id).Some?;
  }
}
