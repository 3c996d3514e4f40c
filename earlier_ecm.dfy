/** The earlier manager, pkg.elk.wtf/ecm/ECM/ECM.jsx: a dependency check that only
    searches names, a manifest update that replaces the stored list wholesale, and an
    install that reports its errors instead of throwing them. As in the later
    manager, module-level functions say what each operation computes and the
    `Manager` methods carry the operations out on the component's state. */
module EarlierEcm {
  import opened Base
  import opened Model
  import opened Exports

  // ---------------------------------------------------------------------------
  // checkDependency (ECM/ECM.jsx:24-33)
  // ---------------------------------------------------------------------------

  /** `requires.some((r) => r.name === name)`: a null entry reached before a match throws. */
  function SomeNamed(entries: seq<Option<Component>>, name: Option<string>): (r: Result<bool>)
    ensures r == Ok(true) ==> exists j :: 0 <= j < |entries| && entries[j].Some? && Some(entries[j].value.name) == name
    ensures r == Ok(false) <==>
              forall j :: 0 <= j < |entries| ==> entries[j].Some? && Some(entries[j].value.name) != name
    ensures r.Err? ==> r.error == TypeError && exists j :: 0 <= j < |entries| && entries[j].None?
  {
    if entries == [] then Ok(false)
    else
      match entries[0]
      case None => Err(TypeError)
      case Some(e) =>
        if Some(e.name) == name then Ok(true)
        else
          var r := SomeNamed(entries[1..], name);
          assert forall j :: 1 <= j < |entries| ==> entries[j] == entries[1..][j - 1];
          r
  }

  /** `some` stops at the first entry it does not pass over: a null there
      throws, a match there gives `true`. */
  lemma {:induction false} SomeNamedAt(entries: seq<Option<Component>>, name: Option<string>, i: nat)
    requires i < |entries|
    requires forall j :: 0 <= j < i ==> Skips(entries[j], name)
    ensures entries[i].None? ==> SomeNamed(entries, name) == Err(TypeError)
    ensures entries[i].Some? && Some(entries[i].value.name) == name ==> SomeNamed(entries, name) == Ok(true)
    decreases i
  {
    if i > 0 {
      var tail := entries[1..];
      forall j | 0 <= j < i - 1 ensures Skips(tail[j], name) {
        assert tail[j] == entries[j + 1];
      }
      SomeNamedAt(tail, name, i - 1);
      assert tail[i - 1] == entries[i];
    }
  }

  /** `checkDependency(name)`: some top-level record has the name, or lists a direct
      requirement of that name; a record without `requires` is passed over. */
  function CheckDependency(cs: seq<Component>, name: Option<string>): (r: Result<bool>)
    ensures r.Err? ==> r.error == TypeError
  {
    if cs == [] then Ok(false)
    else
      var c := cs[0];
      if Some(c.name) == name then Ok(true)
      else if c.requirements.Absent? then CheckDependency(cs[1..], name)
      else
        match SomeNamed(c.requirements.entries, name)
        case Err(e) => Err(e)
        case Ok(listed) => if listed then Ok(true) else CheckDependency(cs[1..], name)
  }

  /** A record the outer `some` passes over: another name, and no `requires` or
      an inner `some` that neither throws nor matches. */
  predicate Passes(c: Component, name: Option<string>) {
    Some(c.name) != name && (c.requirements.Absent? || SomeNamed(c.requirements.entries, name) == Ok(false))
  }

  /** The outer `some` stops at the first record it does not pass over: `true`
      when that record has the name, and otherwise what its inner `some` gives
      (`true`, or the throw of a null requirement reached first). */
  lemma {:induction false} CheckDependencyAt(cs: seq<Component>, name: Option<string>, i: nat)
    requires i < |cs|
    requires forall j :: 0 <= j < i ==> Passes(cs[j], name)
    ensures !Passes(cs[i], name) ==>
              CheckDependency(cs, name)
              == if Some(cs[i].name) == name then Ok(true) else SomeNamed(cs[i].requirements.entries, name)
    decreases i
  {
    if i > 0 {
      var tail := cs[1..];
      forall j | 0 <= j < i - 1 ensures Passes(tail[j], name) {
        assert tail[j] == cs[j + 1];
      }
      CheckDependencyAt(tail, name, i - 1);
      assert tail[i - 1] == cs[i];
    }
  }

  /** No record lists a null requirement. */
  predicate NullFree(cs: seq<Component>) {
    forall i, j :: 0 <= i < |cs| && 0 <= j < |Children(cs[i])| ==> Children(cs[i])[j].Some?
  }

  /** The name is a top-level name or a direct requirement's name. */
  predicate Mentions(c: Component, name: Option<string>) {
    Some(c.name) == name
    || exists j :: 0 <= j < |Children(c)| && Children(c)[j].Some? && Some(Children(c)[j].value.name) == name
  }

  /** `true` only for a name some record has or lists directly; and when no
      requirement is null, exactly for those names (one level deep, never further). */
  lemma {:induction false} CheckDependencyIff(cs: seq<Component>, name: Option<string>)
    ensures CheckDependency(cs, name) == Ok(true) ==> exists i :: 0 <= i < |cs| && Mentions(cs[i], name)
    ensures NullFree(cs) ==> CheckDependency(cs, name) == Ok(exists i :: 0 <= i < |cs| && Mentions(cs[i], name))
    decreases |cs|
  {
    if cs != [] {
      var c, rest := cs[0], cs[1..];
      CheckDependencyIff(rest, name);
      assert forall i :: 1 <= i < |cs| ==> cs[i] == rest[i - 1];
      assert (exists i :: 0 <= i < |cs| && Mentions(cs[i], name)) <==>
             Mentions(c, name) || exists i :: 0 <= i < |rest| && Mentions(rest[i], name) by {
        if exists i :: 0 <= i < |cs| && Mentions(cs[i], name) {
          var i :| 0 <= i < |cs| && Mentions(cs[i], name);
          if i > 0 { assert Mentions(rest[i - 1], name); }
        }
        if exists i :: 0 <= i < |rest| && Mentions(rest[i], name) {
          var i :| 0 <= i < |rest| && Mentions(rest[i], name);
          assert Mentions(cs[i + 1], name);
        }
      }
      if NullFree(cs) {
        forall i, j | 0 <= i < |rest| && 0 <= j < |Children(rest[i])| ensures Children(rest[i])[j].Some? {
          assert rest[i] == cs[i + 1];
        }
        assert NullFree(rest);
      }
      if Some(c.name) != name && c.requirements.Listed? {
        var entries := c.requirements.entries;
        var listed := SomeNamed(entries, name);
        assert Children(c) == entries;
        match listed
        case Ok(true) =>
          var j :| 0 <= j < |entries| && entries[j].Some? && Some(entries[j].value.name) == name;
          assert Mentions(c, name);
        case Ok(false) =>
          assert !Mentions(c, name);
        case Err(_) =>
      }
    }
  }

  /** A requirement listed two levels down is not found. */
  lemma GrandchildNotFound()
    ensures CheckDependency([Node("A", [Node("B", [Leaf("C")])])], Some("C")) == Ok(false)
  {
    var b := Node("B", [Leaf("C")]);
    var a := Node("A", [b]);
    assert a.requirements.entries == [Some(b)];
    assert SomeNamed([Some(b)], Some("C")) == Ok(false);
    assert [a][1..] == [];
  }

  // ---------------------------------------------------------------------------
  // updateIndex (ECM/ECM.jsx:59-103)
  // ---------------------------------------------------------------------------

  /** What `updateIndex` collects: a null top-level record throws (line 69 reads its
      name unguarded); otherwise the names `Flatten` gives. */
  function Index(updated: seq<Option<Component>>): Result<seq<string>> {
    if forall i :: 0 <= i < |updated| ==> updated[i].Some? then Ok(Flatten(updated)) else Err(TypeError)
  }

  /** The recursive `addExports` closure over a present record. */
  method AddExports(component: Component, acc: seq<string>) returns (out: seq<string>)
    ensures out == Visit(component, acc)
    decreases component
  {
    if component.name in acc {
      return acc;
    }
    out := acc + [component.name];
    if component.requirements.Listed? {
      var requirements := component.requirements.entries;
      for i := 0 to |requirements|
        invariant VisitFrom(component, i, out) == VisitFrom(component, 0, acc + [component.name])
      {
        if requirements[i].None? {
          continue;
        }
        out := AddExports(requirements[i].value, out);
      }
    }
  }

  /** The top-level loop of `updateIndex`, throwing at the first null record. */
  method CollectExports(updated: seq<Option<Component>>) returns (r: Result<seq<string>>)
    ensures r == Index(updated)
  {
    var names := [];
    for i := 0 to |updated|
      invariant VisitList(updated[i..], names) == Flatten(updated)
      invariant forall k :: 0 <= k < i ==> updated[k].Some?
    {
      assert updated[i..][1..] == updated[i + 1..];
      if updated[i].None? {
        return Err(TypeError);
      }
      names := AddExports(updated[i].value, names);
    }
    assert updated[|updated|..] == [];
    r := Ok(names);
  }

  /** A list whose only null is an appended failed install makes the index throw,
      while the next load drops the null and shows the old list (ECM/ECM.jsx:253-255, 137). */
  lemma NullAppendedBreaksIndex(cs: seq<Component>)
    ensures Index(Present(cs) + [None]) == Err(TypeError)
    ensures Loaded(Some(Present(cs) + [None])) == cs
  {
    assert (Present(cs) + [None])[|cs|] == None;
    CompactAppend(Present(cs), [None]);
    CompactPresent(cs);
    assert Compact([None]) == [];
    assert cs + [] == cs;
  }

  /** Present records always index without throwing. */
  lemma PresentIndexes(cs: seq<Component>)
    ensures Index(Present(cs)) == Ok(Flatten(Present(cs)))
  {
  }

  // ---------------------------------------------------------------------------
  // addComponent (ECM/ECM.jsx:161-209)
  // ---------------------------------------------------------------------------

  /** What an install sees that it does not change. */
  datatype Context = Context(dir: string, web: Web, installed: seq<Component>)

  /** The outcome of a call that writes to the vault and sets the error message:
      its result, the vault afterwards and the message afterwards (`None` for ""). */
  datatype Effect<+T> = Effect(result: Result<T>, files: map<string, string>, error: Option<Error>)

  /** `addComponent(url)`: clear the message, then as in the later manager, except
      that a throw is caught, recorded as the message and turned into an undefined
      result. A nested install that fails is pushed as a null requirement. Only the
      model's own `Diverges` (the fuel ran out) passes through. */
  function Add(ctx: Context, files: map<string, string>, url: string, fuel: nat): Effect<Option<Component>>
    decreases fuel, 0, 0
  {
    if fuel == 0 then Effect(Err(Diverges), files, None)
    else if url !in ctx.web.json then Effect(Ok(None), files, Some(NetworkError(url)))
    else
      var d := ctx.web.json[url];
      if !Truthy(d.name) || !Truthy(d.version) || !Truthy(d.source) then
        Effect(Ok(None), files, Some(InvalidManifestFormat))
      else
        var sub := AddRequirements(ctx, files, None, Requisites(d), 0, [], fuel - 1);
        if sub.result.Err? then
          if sub.result.error == Diverges then Effect(Err(Diverges), sub.files, sub.error)
          else Effect(Ok(None), sub.files, Some(sub.result.error))
        else
          var src := d.source.value;
          var path := ComponentPath(ctx.dir, d.name.value);
          if src !in ctx.web.text then Effect(Ok(None), sub.files, Some(NetworkError(src)))
          else if path in sub.files then Effect(Ok(None), sub.files, Some(FileExists(path)))
          else
            var c := Component(d.name.value, d.version.value, url, src, path, false,
                               Listed(sub.result.value), false);
            Effect(Ok(Some(c)), sub.files[path := ctx.web.text[src]], sub.error)
  }

  /** The requirement loop from position `i`: a requirement whose name
      `checkDependency` finds is skipped without a fetch; any other is installed
      and its result, a record or null, pushed. */
  function AddRequirements(ctx: Context, files: map<string, string>, error: Option<Error>, reqs: seq<Requirement>,
                           i: nat, acc: seq<Option<Component>>, fuel: nat): Effect<seq<Option<Component>>>
    requires i <= |reqs|
    decreases fuel, 1, |reqs| - i
  {
    if i == |reqs| then Effect(Ok(acc), files, error)
    else
      match CheckDependency(ctx.installed, reqs[i].name)
      case Err(e) => Effect(Err(e), files, error)
      case Ok(present) =>
        if present then AddRequirements(ctx, files, error, reqs, i + 1, acc, fuel)
        else
          var sub := Add(ctx, files, reqs[i].manifest, fuel);
          if sub.result.Err? then Effect(Err(sub.result.error), sub.files, sub.error)
          else AddRequirements(ctx, sub.files, sub.error, reqs, i + 1, acc + [sub.result.value], fuel)
  }

  /** A loop whose every remaining requirement's name is found fetches and
      writes nothing and pushes nothing. */
  lemma {:induction false} AddRequirementsAllPresent(ctx: Context, files: map<string, string>, error: Option<Error>,
                                                     reqs: seq<Requirement>, i: nat, acc: seq<Option<Component>>, fuel: nat)
    requires i <= |reqs|
    requires forall k :: i <= k < |reqs| ==> CheckDependency(ctx.installed, reqs[k].name) == Ok(true)
    ensures AddRequirements(ctx, files, error, reqs, i, acc, fuel) == Effect(Ok(acc), files, error)
    decreases |reqs| - i
  {
    if i < |reqs| {
      AddRequirementsAllPresent(ctx, files, error, reqs, i + 1, acc, fuel);
    }
  }

  /** When `checkDependency` finds every requirement's name, no requirement is
      fetched or installed again: the install writes its own component file and
      nothing else, and records no requirements. */
  lemma AddSatisfied(ctx: Context, files: map<string, string>, url: string, fuel: nat)
    requires fuel > 0 && url in ctx.web.json
    requires Truthy(ctx.web.json[url].name) && Truthy(ctx.web.json[url].version) && Truthy(ctx.web.json[url].source)
    requires forall k :: 0 <= k < |Requisites(ctx.web.json[url])| ==>
               CheckDependency(ctx.installed, Requisites(ctx.web.json[url])[k].name) == Ok(true)
    ensures var d := ctx.web.json[url];
      var path := ComponentPath(ctx.dir, d.name.value);
      var out := Add(ctx, files, url, fuel);
      && out.result.Ok?
      && (out.result.value.Some? <==> d.source.value in ctx.web.text && path !in files)
      && (out.result.value.Some? ==> out.files == files[path := ctx.web.text[d.source.value]]
                                     && out.result.value.value.requirements == Listed([]))
      && (out.result.value.None? ==> out.files == files)
  {
    AddRequirementsAllPresent(ctx, files, None, Requisites(ctx.web.json[url]), 0, [], fuel - 1);
  }

  /** An install never throws anything but the model's `Diverges`; when it gives up
      it returns nothing and the message says why. */
  lemma AddNeverThrows(ctx: Context, files: map<string, string>, url: string, fuel: nat)
    ensures Add(ctx, files, url, fuel).result.Err? ==> Add(ctx, files, url, fuel).result.error == Diverges
    ensures Add(ctx, files, url, fuel).result == Ok(None) ==> Add(ctx, files, url, fuel).error.Some?
  {
  }

  /** A descriptor without a name, a version or a source writes nothing, records
      the message and returns undefined. */
  lemma AddInvalidRecords(ctx: Context, files: map<string, string>, url: string, fuel: nat)
    requires fuel > 0 && url in ctx.web.json
    requires var d := ctx.web.json[url]; !Truthy(d.name) || !Truthy(d.version) || !Truthy(d.source)
    ensures Add(ctx, files, url, fuel) == Effect(Ok(None), files, Some(InvalidManifestFormat))
  {
  }

  /** No file that existed is removed or overwritten. */
  predicate Keeps(before: map<string, string>, after: map<string, string>) {
    forall p :: p in before ==> p in after && after[p] == before[p]
  }

  lemma {:induction false} AddKeeps(ctx: Context, files: map<string, string>, url: string, fuel: nat)
    ensures Keeps(files, Add(ctx, files, url, fuel).files)
    decreases fuel, 0, 0
  {
    if fuel > 0 && url in ctx.web.json {
      var d := ctx.web.json[url];
      if Truthy(d.name) && Truthy(d.version) && Truthy(d.source) {
        AddRequirementsKeeps(ctx, files, None, Requisites(d), 0, [], fuel - 1);
      }
    }
  }

  lemma {:induction false} AddRequirementsKeeps(ctx: Context, files: map<string, string>, error: Option<Error>,
                                                reqs: seq<Requirement>, i: nat, acc: seq<Option<Component>>, fuel: nat)
    requires i <= |reqs|
    ensures Keeps(files, AddRequirements(ctx, files, error, reqs, i, acc, fuel).files)
    decreases fuel, 1, |reqs| - i
  {
    if i < |reqs| {
      var dep := CheckDependency(ctx.installed, reqs[i].name);
      if dep == Ok(true) {
        AddRequirementsKeeps(ctx, files, error, reqs, i + 1, acc, fuel);
      } else if dep == Ok(false) {
        var sub := Add(ctx, files, reqs[i].manifest, fuel);
        AddKeeps(ctx, files, reqs[i].manifest, fuel);
        if sub.result.Ok? {
          AddRequirementsKeeps(ctx, sub.files, sub.error, reqs, i + 1, acc + [sub.result.value], fuel);
        }
      }
    }
  }

  /** A successful install: `filePath = ${dir}/${name}.jsx`, a file that did not
      exist and now holds the fetched source, and the descriptor's fields. */
  lemma AddCreatesFile(ctx: Context, files: map<string, string>, url: string, fuel: nat)
    requires Add(ctx, files, url, fuel).result.Ok? && Add(ctx, files, url, fuel).result.value.Some?
    ensures var c := Add(ctx, files, url, fuel).result.value.value;
      && url in ctx.web.json
      && ctx.web.json[url].name == Some(c.name) && ctx.web.json[url].version == Some(c.version)
      && ctx.web.json[url].source == Some(c.source)
      && c.manifest == url && c.filePath == ComponentPath(ctx.dir, c.name)
      && c.filePath !in files && c.source in ctx.web.text
      && c.filePath in Add(ctx, files, url, fuel).files
      && Add(ctx, files, url, fuel).files[c.filePath] == ctx.web.text[c.source]
  {
    var d := ctx.web.json[url];
    AddRequirementsKeeps(ctx, files, None, Requisites(d), 0, [], fuel - 1);
  }

  /** The requirement manifests from position `i` whose names `checkDependency`
      does not find, in descriptor order. */
  function Pending(ctx: Context, reqs: seq<Requirement>, i: nat): seq<string>
    requires i <= |reqs|
    decreases |reqs| - i
  {
    if i == |reqs| then []
    else
      (if CheckDependency(ctx.installed, reqs[i].name) == Ok(true) then [] else [reqs[i].manifest])
      + Pending(ctx, reqs, i + 1)
  }

  /** One pushed entry per manifest, in order: a record installed from it, or null. */
  predicate InstalledFrom(entries: seq<Option<Component>>, manifests: seq<string>) {
    |entries| == |manifests|
    && forall k :: 0 <= k < |entries| && entries[k].Some? ==> entries[k].value.manifest == manifests[k]
  }

  lemma AddManifest(ctx: Context, files: map<string, string>, url: string, fuel: nat)
    requires Add(ctx, files, url, fuel).result.Ok? && Add(ctx, files, url, fuel).result.value.Some?
    ensures Add(ctx, files, url, fuel).result.value.value.manifest == url
  {
  }

  lemma {:induction false} AddRequirementsOrder(ctx: Context, files: map<string, string>, error: Option<Error>,
                                                reqs: seq<Requirement>, i: nat, acc: seq<Option<Component>>,
                                                m: seq<string>, fuel: nat)
    requires i <= |reqs| && InstalledFrom(acc, m)
    requires AddRequirements(ctx, files, error, reqs, i, acc, fuel).result.Ok?
    ensures InstalledFrom(AddRequirements(ctx, files, error, reqs, i, acc, fuel).result.value, m + Pending(ctx, reqs, i))
    decreases |reqs| - i, 1
  {
    if i == |reqs| {
      assert m + [] == m;
    } else if CheckDependency(ctx.installed, reqs[i].name) == Ok(true) {
      assert AddRequirements(ctx, files, error, reqs, i, acc, fuel)
             == AddRequirements(ctx, files, error, reqs, i + 1, acc, fuel);
      assert Pending(ctx, reqs, i) == Pending(ctx, reqs, i + 1);
      AddRequirementsOrder(ctx, files, error, reqs, i + 1, acc, m, fuel);
    } else {
      assert CheckDependency(ctx.installed, reqs[i].name) == Ok(false);
      AddRequirementsOrderInstalled(ctx, files, error, reqs, i, acc, m, fuel);
    }
  }

  /** The turn of the loop that installs requirement `i`. */
  lemma {:induction false} AddRequirementsOrderInstalled(ctx: Context, files: map<string, string>, error: Option<Error>,
                                                         reqs: seq<Requirement>, i: nat, acc: seq<Option<Component>>,
                                                         m: seq<string>, fuel: nat)
    requires i < |reqs| && InstalledFrom(acc, m)
    requires CheckDependency(ctx.installed, reqs[i].name) == Ok(false)
    requires AddRequirements(ctx, files, error, reqs, i, acc, fuel).result.Ok?
    ensures InstalledFrom(AddRequirements(ctx, files, error, reqs, i, acc, fuel).result.value, m + Pending(ctx, reqs, i))
    decreases |reqs| - i, 0
  {
    var sub := Add(ctx, files, reqs[i].manifest, fuel);
    assert sub.result.Ok?;
    if sub.result.value.Some? {
      AddManifest(ctx, files, reqs[i].manifest, fuel);
    }
    var acc' := acc + [sub.result.value];
    assert AddRequirements(ctx, files, error, reqs, i, acc, fuel)
           == AddRequirements(ctx, sub.files, sub.error, reqs, i + 1, acc', fuel);
    assert InstalledFrom(acc', m + [reqs[i].manifest]);
    AddRequirementsOrder(ctx, sub.files, sub.error, reqs, i + 1, acc', m + [reqs[i].manifest], fuel);
    assert Pending(ctx, reqs, i) == [reqs[i].manifest] + Pending(ctx, reqs, i + 1);
    assert m + [reqs[i].manifest] + Pending(ctx, reqs, i + 1) == m + Pending(ctx, reqs, i);
  }

  /** A successful install lists one entry per requirement whose name was not
      found, in descriptor order: the record installed from that requirement's
      manifest, or null where that nested install gave up. */
  lemma AddRequirementsInOrder(ctx: Context, files: map<string, string>, url: string, fuel: nat)
    requires Add(ctx, files, url, fuel).result.Ok? && Add(ctx, files, url, fuel).result.value.Some?
    ensures var c := Add(ctx, files, url, fuel).result.value.value;
      url in ctx.web.json && c.requirements.Listed?
      && InstalledFrom(c.requirements.entries, Pending(ctx, Requisites(ctx.web.json[url]), 0))
  {
    var d := ctx.web.json[url];
    AddRequirementsOrder(ctx, files, None, Requisites(d), 0, [], [], fuel - 1);
    assert [] + Pending(ctx, Requisites(d), 0) == Pending(ctx, Requisites(d), 0);
  }

  // ---------------------------------------------------------------------------
  // deleteComponent's list (ECM/ECM.jsx:223)
  // ---------------------------------------------------------------------------

  /** The wholesale replace makes a deletion stick: the list loaded back holds
      every other record in its old order and none of that name. */
  lemma DeletePersists(cs: seq<Component>, name: string)
    ensures Loaded(Some(Present(Without(cs, name)))) == Without(cs, name)
    ensures forall c :: c in Loaded(Some(Present(Without(cs, name)))) ==> c.name != name
  {
    CompactPresent(Without(cs, name));
  }

  // ---------------------------------------------------------------------------
  // The component's state and its operations
  // ---------------------------------------------------------------------------

  /** The state of one mounted manager (see the later manager's `Manager`). */
  class Manager {
    const dir: string
    const web: Web
    var components: seq<Component>
    var files: map<string, string>
    var stored: Option<seq<Option<Component>>>
    var error: Option<Error>

    /** Mounting: the list is loaded from the stored field, nulls dropped. */
    constructor (dir: string, web: Web, files: map<string, string>, stored: Option<seq<Option<Component>>>)
      ensures this.dir == dir && this.web == web && this.files == files && this.stored == stored
      ensures components == Loaded(stored) && error == None
    {
      this.dir := dir;
      this.web := web;
      this.files := files;
      this.stored := stored;
      components := Loaded(stored);
      error := None;
    }

    function Ctx(): Context
      reads this
    {
      Context(dir, web, components)
    }

    /** `updateIndex(updated)`: a null record throws before the index is written. */
    method UpdateIndex(updated: seq<Option<Component>>) returns (r: Result<()>)
      modifies this`files
      ensures Index(updated).Err? ==> r == Err(TypeError) && files == old(files)
      ensures Index(updated).Ok? ==>
                r == Ok(()) && files == old(files)[IndexPath(dir) := IndexText(Index(updated).value)]
    {
      var names := CollectExports(updated);
      if names.Err? {
        return Err(names.error);
      }
      files := files[IndexPath(dir) := IndexText(names.value)];
      r := Ok(());
    }

    /** `updateManifest(updated)`: the stored field becomes exactly `updated`; the
        index is rewritten, and the list reloaded unless the index threw. */
    method UpdateManifest(updated: seq<Option<Component>>) returns (r: Result<()>)
      modifies this`stored, this`files, this`components
      ensures stored == Some(updated)
      ensures Index(updated).Err? ==>
                r == Err(TypeError) && files == old(files) && components == old(components)
      ensures Index(updated).Ok? ==>
                && r == Ok(())
                && files == old(files)[IndexPath(dir) := IndexText(Flatten(updated))]
                && components == Compact(updated)
    {
      stored := Some(updated);
      r := UpdateIndex(updated);
      if r.Err? {
        return;
      }
      components := Loaded(stored);
    }

    /** `addComponent(url)`, recursing on the requirements; `fuel` bounds the depth. */
    method AddComponent(url: string, fuel: nat) returns (r: Result<Option<Component>>)
      modifies this`files, this`error
      ensures Effect(r, files, error) == Add(Ctx(), old(files), url, fuel)
      decreases fuel
    {
      error := None;
      if fuel == 0 {
        return Err(Diverges);
      }
      if url !in web.json {
        error := Some(NetworkError(url));
        return Ok(None);
      }
      var manifest := web.json[url];
      if !Truthy(manifest.name) || !Truthy(manifest.version) || !Truthy(manifest.source) {
        error := Some(InvalidManifestFormat);
        return Ok(None);
      }
      var reqs := Requisites(manifest);
      var requirements: seq<Option<Component>> := [];
      ghost var files0 := files;
      for i := 0 to |reqs|
        invariant AddRequirements(Ctx(), files, error, reqs, i, requirements, fuel - 1)
                  == AddRequirements(Ctx(), files0, None, reqs, 0, [], fuel - 1)
      {
        var present := CheckDependency(components, reqs[i].name);
        if present.Err? {
          error := Some(present.error);
          return Ok(None);
        }
        if present.value {
          continue;
        }
        var sub := AddComponent(reqs[i].manifest, fuel - 1);
        if sub.Err? {
          return Err(sub.error);
        }
        requirements := requirements + [sub.value];
      }
      var src := manifest.source.value;
      if src !in web.text {
        error := Some(NetworkError(src));
        return Ok(None);
      }
      var filePath := ComponentPath(dir, manifest.name.value);
      if filePath in files {
        error := Some(FileExists(filePath));
        return Ok(None);
      }
      files := files[filePath := web.text[src]];
      r := Ok(Some(Component(manifest.name.value, manifest.version.value, url, src, filePath, false,
                             Listed(requirements), false)));
    }

    /** The Add button: install, then store the old list followed by the result,
        which is null when the install gave up. */
    method AddClicked(url: string, fuel: nat)
      modifies this`files, this`stored, this`components, this`error
      ensures var added := Add(old(Ctx()), old(files), url, fuel);
        added.result.Err? ==>
          files == added.files && error == added.error
          && stored == old(stored) && components == old(components)
      ensures var added := Add(old(Ctx()), old(files), url, fuel);
        added.result.Ok? ==>
          var updated := Present(old(components)) + [added.result.value];
          && error == added.error
          && stored == Some(updated)
          && (Index(updated).Err? ==> files == added.files && components == old(components))
          && (Index(updated).Ok? ==>
                files == added.files[IndexPath(dir) := IndexText(Flatten(updated))]
                && components == Compact(updated))
    {
      var added := AddComponent(url, fuel);
      if added.Err? {
        return;
      }
      var _ := UpdateManifest(Present(components) + [added.value]);
    }

    /** `deleteComponent(name)`: trash the file, drop every record of that name,
        store the filtered list. A missing file throws before anything changes. */
    method DeleteComponent(name: string)
      modifies this`files, this`components, this`stored
      ensures ComponentPath(dir, name) !in old(files) ==>
                files == old(files) && components == old(components) && stored == old(stored)
      ensures var updated := Without(old(components), name);
        ComponentPath(dir, name) in old(files) ==>
          && files == (old(files) - {ComponentPath(dir, name)})[IndexPath(dir) := IndexText(Flatten(Present(updated)))]
          && stored == Some(Present(updated))
          && components == updated
    {
      var path := ComponentPath(dir, name);
      if path !in files {
        return;
      }
      files := files - {path};
      var updated := Without(components, name);
      components := updated;
      CompactPresent(updated);
      var _ := UpdateManifest(Present(updated));
    }
  }
}
