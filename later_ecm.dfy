/** The later manager, pkg.elk.wtf/ecm/ECM.jsx: dependency checks that fetch the
    requirement's descriptor, a frontmatter merge by name, update checks, recursive
    installs and upgrades. The module-level functions say what each operation
    computes; `Manager` holds the state the component updates in place and its
    methods carry out the operations step by step, proved equal to those functions. */
module LaterEcm {
  import opened Base
  import opened Semver
  import opened Model
  import opened Exports

  // ---------------------------------------------------------------------------
  // checkDependency (ECM.jsx:93-124)
  // ---------------------------------------------------------------------------

  /** `requires.find((r) => r.name === name)` over a present list: the first entry
      carrying the name; a null entry reached before it throws. */
  function FindRequirement(entries: seq<Option<Component>>, name: Option<string>): (r: Result<Option<Component>>)
    ensures r.Ok? && r.value.Some? ==> Some(r.value.value) in entries && Some(r.value.value.name) == name
    ensures r == Ok(None) <==>
              forall j :: 0 <= j < |entries| ==> entries[j].Some? && Some(entries[j].value.name) != name
    ensures r.Err? ==> r.error == TypeError
  {
    if entries == [] then Ok(None)
    else
      match entries[0]
      case None => Err(TypeError)
      case Some(e) =>
        if Some(e.name) == name then Ok(Some(e))
        else
          var r := FindRequirement(entries[1..], name);
          assert forall j :: 1 <= j < |entries| ==> entries[j] == entries[1..][j - 1];
          r
  }

  /** The inner `find` stops at the first entry it does not pass over: a null
      there throws, a match there is the result. */
  lemma {:induction false} FindRequirementAt(entries: seq<Option<Component>>, name: Option<string>, i: nat)
    requires i < |entries|
    requires forall j :: 0 <= j < i ==> Skips(entries[j], name)
    ensures entries[i].None? ==> FindRequirement(entries, name) == Err(TypeError)
    ensures entries[i].Some? && Some(entries[i].value.name) == name ==>
              FindRequirement(entries, name) == Ok(entries[i])
    decreases i
  {
    if i > 0 {
      var tail := entries[1..];
      forall j | 0 <= j < i - 1 ensures Skips(tail[j], name) {
        assert tail[j] == entries[j + 1];
      }
      FindRequirementAt(tail, name, i - 1);
      assert tail[i - 1] == entries[i];
    }
  }

  /** A record lists a requirement of that name (the inner `find` of line 102 succeeds). */
  predicate ListsRequirement(c: Component, name: Option<string>) {
    c.requirements.Listed? && FindRequirement(c.requirements.entries, name).Ok?
    && FindRequirement(c.requirements.entries, name).value.Some?
  }

  /** `components.find((c) => c.name === name || c.requires.find(...))`: the first
      record that has the name or lists it; a record without `requires`, or a null
      requirement, reached before the match throws. */
  function FindHolder(cs: seq<Component>, name: Option<string>): (r: Result<Option<Component>>)
    ensures r.Ok? && r.value.Some? ==>
              r.value.value in cs && (Some(r.value.value.name) == name || ListsRequirement(r.value.value, name))
    ensures r == Ok(None) <==>
              forall i :: 0 <= i < |cs| ==>
                Some(cs[i].name) != name && cs[i].requirements.Listed?
                && FindRequirement(cs[i].requirements.entries, name) == Ok(None)
    ensures r.Err? ==> r.error == TypeError
  {
    if cs == [] then Ok(None)
    else
      var c := cs[0];
      if Some(c.name) == name then Ok(Some(c))
      else if c.requirements.Absent? then Err(TypeError)
      else
        match FindRequirement(c.requirements.entries, name)
        case Err(e) => Err(e)
        case Ok(found) =>
          if found.Some? then Ok(Some(c))
          else
            var r := FindHolder(cs[1..], name);
            assert forall i :: 1 <= i < |cs| ==> cs[i] == cs[1..][i - 1];
            r
  }

  /** A record the outer `find` passes over: another name, a `requires` list, and
      an inner `find` that neither throws nor matches. */
  predicate Passes(c: Component, name: Option<string>) {
    Some(c.name) != name && c.requirements.Listed? && FindRequirement(c.requirements.entries, name) == Ok(None)
  }

  /** A record at which the outer `find` throws: another name, and either no
      `requires` or an inner `find` that throws (a null requirement first). */
  predicate Breaks(c: Component, name: Option<string>) {
    Some(c.name) != name
    && (c.requirements.Absent? || FindRequirement(c.requirements.entries, name).Err?)
  }

  /** The outer `find` stops at the first record it does not pass over: it throws
      there when that record breaks it, and otherwise that record (which has or
      lists the name) is the result. */
  lemma {:induction false} FindHolderAt(cs: seq<Component>, name: Option<string>, i: nat)
    requires i < |cs|
    requires forall j :: 0 <= j < i ==> Passes(cs[j], name)
    ensures Breaks(cs[i], name) ==> FindHolder(cs, name) == Err(TypeError)
    ensures !Breaks(cs[i], name) && !Passes(cs[i], name) ==> FindHolder(cs, name) == Ok(Some(cs[i]))
    decreases i
  {
    if i > 0 {
      var tail := cs[1..];
      forall j | 0 <= j < i - 1 ensures Passes(tail[j], name) {
        assert tail[j] == cs[j + 1];
      }
      FindHolderAt(tail, name, i - 1);
      assert tail[i - 1] == cs[i];
    }
  }

  /** `checkDependency(manifest)`: fetch the descriptor, find the first record that
      has or lists its name, then look the name up among that record's own
      requirements and compare versions with `satisfies`. No matching record, or a
      matching record without `requires`, throws (line 104 reads `requires` before
      the check of line 105). */
  function CheckDependency(cs: seq<Component>, web: Web, url: string): Result<bool> {
    if url !in web.json then Err(NetworkError(url))
    else
      var name := web.json[url].name;
      match FindHolder(cs, name)
      case Err(e) => Err(e)
      case Ok(holder) =>
        if holder.None? || holder.value.requirements.Absent? then Err(TypeError)
        else
          var c := holder.value;
          match FindRequirement(c.requirements.entries, name)
          case Err(e) => Err(e)
          case Ok(dependency) =>
            if dependency.None? then Ok(false)
            else Satisfies(c.version, dependency.value.version)
  }

  /** A requirement counts as installed only when some record lists a direct
      requirement of that name whose version `satisfies` the listing record's own
      version; a top-level record of that name is not enough. */
  lemma CheckDependencyTrue(cs: seq<Component>, web: Web, url: string)
    requires CheckDependency(cs, web, url) == Ok(true)
    ensures url in web.json
    ensures exists c, d :: c in cs && c.requirements.Listed? && Some(d) in c.requirements.entries
                           && Some(d.name) == web.json[url].name && Satisfies(c.version, d.version) == Ok(true)
  {
    var name := web.json[url].name;
    var c := FindHolder(cs, name).value.value;
    var d := FindRequirement(c.requirements.entries, name).value.value;
    assert c in cs && Some(d) in c.requirements.entries;
  }

  /** A requirement that nothing installed has or lists is not reported missing:
      the check throws. */
  lemma CheckDependencyUnknownThrows(cs: seq<Component>, web: Web, url: string)
    requires url in web.json
    requires forall i :: 0 <= i < |cs| ==>
               Some(cs[i].name) != web.json[url].name && cs[i].requirements.Listed?
               && FindRequirement(cs[i].requirements.entries, web.json[url].name) == Ok(None)
    ensures CheckDependency(cs, web, url) == Err(TypeError)
  {
  }

  /** With nothing installed every check throws, once the descriptor is fetched. */
  lemma CheckDependencyEmptyThrows(web: Web, url: string)
    ensures CheckDependency([], web, url) == if url in web.json then Err(TypeError) else Err(NetworkError(url))
  {
  }

  /** A first record that has the name itself but lists no requirement of that
      name yields `false`: the installed record is never compared. */
  lemma CheckDependencySelfIsFalse(cs: seq<Component>, web: Web, url: string)
    requires url in web.json && |cs| > 0
    requires Some(cs[0].name) == web.json[url].name && cs[0].requirements.Listed?
    requires FindRequirement(cs[0].requirements.entries, web.json[url].name) == Ok(None)
    ensures CheckDependency(cs, web, url) == Ok(false)
  {
  }

  /** A record without `requires` ahead of any match makes the check throw,
      wherever it stands: the outer `find` reaches it and reads its `requires`. */
  lemma CheckDependencyAbsentRequiresThrows(cs: seq<Component>, web: Web, url: string, i: nat)
    requires url in web.json && i < |cs|
    requires Some(cs[i].name) != web.json[url].name && cs[i].requirements.Absent?
    requires forall j :: 0 <= j < i ==> Passes(cs[j], web.json[url].name)
    ensures CheckDependency(cs, web, url) == Err(TypeError)
  {
    FindHolderAt(cs, web.json[url].name, i);
  }

  // ---------------------------------------------------------------------------
  // The frontmatter merge of updateManifest (ECM.jsx:242-247)
  // ---------------------------------------------------------------------------

  /** One stored record after the merge: the first updated record of its name, or itself. */
  function MergeEntry(c: Component, updated: seq<Component>): Component {
    var u := FirstNamed(updated, c.name);
    if u.Some? then u.value else c
  }

  /** `data.components.filter(Boolean).map(...)`; a null `components` field throws. */
  function Merge(stored: Option<seq<Option<Component>>>, updated: seq<Component>): Result<seq<Component>> {
    if stored.None? then Err(TypeError)
    else
      var cs := Compact(stored.value);
      Ok(seq(|cs|, i requires 0 <= i < |cs| => MergeEntry(cs[i], updated)))
  }

  /** The merge keeps the non-null stored records in order, one for one; each is
      replaced by the first updated record of the same name when there is one and
      kept unchanged otherwise. */
  lemma MergeShape(stored: Option<seq<Option<Component>>>, updated: seq<Component>)
    ensures stored.None? ==> Merge(stored, updated) == Err(TypeError)
    ensures stored.Some? ==>
      var cs := Compact(stored.value);
      var r := Merge(stored, updated);
      && r.Ok? && |r.value| == |cs|
      && forall i :: 0 <= i < |cs| ==>
           && r.value[i].name == cs[i].name
           && ((forall u :: u in updated ==> u.name != cs[i].name) ==> r.value[i] == cs[i])
           && ((exists u :: u in updated && u.name == cs[i].name) ==>
                 exists k :: 0 <= k < |updated| && r.value[i] == updated[k]
                             && (forall j :: 0 <= j < k ==> updated[j].name != cs[i].name))
  {
    if stored.Some? {
      var cs := Compact(stored.value);
      var r := Merge(stored, updated).value;
      forall i | 0 <= i < |cs|
        ensures r[i].name == cs[i].name
        ensures (forall u :: u in updated ==> u.name != cs[i].name) ==> r[i] == cs[i]
        ensures (exists u :: u in updated && u.name == cs[i].name) ==>
                  exists k :: 0 <= k < |updated| && r[i] == updated[k]
                              && (forall j :: 0 <= j < k ==> updated[j].name != cs[i].name)
      {
        var u := FirstNamed(updated, cs[i].name);
        if u.Some? {
          var k :| 0 <= k < |updated| && updated[k] == u.value && updated[k].name == cs[i].name
                   && forall j :: 0 <= j < k ==> updated[j].name != cs[i].name;
          assert r[i] == updated[k];
          assert updated[k] in updated;
        } else {
          assert r[i] == cs[i];
          forall u | u in updated ensures u.name != cs[i].name {
            var k :| 0 <= k < |updated| && updated[k] == u;
          }
        }
      }
    }
  }

  /** The merge never adds or removes a name: the stored names come back as they were. */
  lemma MergeKeepsNames(stored: Option<seq<Option<Component>>>, updated: seq<Component>)
    requires stored.Some?
    ensures Merge(stored, updated).Ok?
    ensures Names(Merge(stored, updated).value) == Names(Compact(stored.value))
  {
    MergeShape(stored, updated);
  }

  /** Merging the merged list again with the same records changes nothing. */
  lemma MergeIdempotent(stored: Option<seq<Option<Component>>>, updated: seq<Component>)
    requires stored.Some?
    ensures Merge(Some(Present(Merge(stored, updated).value)), updated) == Merge(stored, updated)
  {
    var r := Merge(stored, updated).value;
    CompactPresent(r);
    var cs := Compact(stored.value);
    forall i | 0 <= i < |r| ensures MergeEntry(r[i], updated) == r[i] {
      var u := FirstNamed(updated, cs[i].name);
      if u.Some? {
        assert r[i] == u.value;
        assert u.value.name == cs[i].name;
      }
    }
    assert Merge(Some(Present(r)), updated).value == r;
  }

  /** A record that was never stored is not persisted by the merge, whatever
      the list passed in holds: installing through the Add button (ECM.jsx:487-491)
      does not record the new name. */
  lemma MergeDropsNewName(stored: Option<seq<Option<Component>>>, cs: seq<Component>, nc: Component)
    requires stored.Some?
    requires forall c :: c in Compact(stored.value) ==> c.name != nc.name
    ensures Merge(stored, cs + [nc]).Ok?
    ensures forall c :: c in Merge(stored, cs + [nc]).value ==> c.name != nc.name
  {
    MergeShape(stored, cs + [nc]);
    var r := Merge(stored, cs + [nc]).value;
    var old_ := Compact(stored.value);
    forall c | c in r ensures c.name != nc.name {
      var i :| 0 <= i < |r| && r[i] == c;
      assert old_[i] in old_;
    }
  }

  /** A deleted name stays in the stored list: the records of that name are kept
      exactly as they were, because the filtered list no longer has them to merge in
      (ECM.jsx:345-349). */
  lemma MergeKeepsDeleted(stored: Option<seq<Option<Component>>>, cs: seq<Component>, name: string)
    requires stored.Some?
    ensures Merge(stored, Without(cs, name)).Ok?
    ensures forall i :: 0 <= i < |Compact(stored.value)| && Compact(stored.value)[i].name == name ==>
              Merge(stored, Without(cs, name)).value[i] == Compact(stored.value)[i]
  {
    MergeShape(stored, Without(cs, name));
  }

  // ---------------------------------------------------------------------------
  // checkUpdates (ECM.jsx:258-283) and the update flag (ECM.jsx:457-462)
  // ---------------------------------------------------------------------------

  /** One turn of the `checkUpdates` loop: the remote descriptor when it carries a
      version that is an upgrade of the installed one, nothing when it is skipped. */
  function Probe(c: Component, web: Web): Result<Option<Descriptor>> {
    if c.manifest !in web.json then Err(NetworkError(c.manifest))
    else
      var d := web.json[c.manifest];
      if !Truthy(d.version) then Ok(None)
      else
        match IsUpgrade(c.version, d.version.value)
        case Err(e) => Err(e)
        case Ok(up) => if up then Ok(Some(d)) else Ok(None)
  }

  /** The loop state after one more turn: an error stays, a found descriptor is pushed. */
  function Step(acc: Result<seq<Descriptor>>, c: Component, web: Web): Result<seq<Descriptor>> {
    match acc
    case Err(e) => Err(e)
    case Ok(found) =>
      match Probe(c, web)
      case Err(e) => Err(e)
      case Ok(p) => Ok(if p.Some? then found + [p.value] else found)
  }

  /** What `checkUpdates` returns for the top-level records `cs`: the descriptors
      collected in order, or the first error thrown. */
  function Updates(cs: seq<Component>, web: Web): (r: Result<seq<Descriptor>>)
    ensures r.Ok? ==> |r.value| <= |cs|
    decreases |cs|
  {
    if cs == [] then Ok([]) else Step(Updates(cs[..|cs| - 1], web), cs[|cs| - 1], web)
  }

  lemma UpdatesSnoc(cs: seq<Component>, c: Component, web: Web)
    ensures Updates(cs + [c], web) == Step(Updates(cs, web), c, web)
  {
    assert (cs + [c])[..|cs|] == cs;
  }

  /** Once a prefix has thrown, the whole loop throws the same error. */
  lemma {:induction false} UpdatesErrPrefix(cs: seq<Component>, k: nat, web: Web)
    requires k <= |cs| && Updates(cs[..k], web).Err?
    ensures Updates(cs, web) == Updates(cs[..k], web)
    decreases |cs|
  {
    if k < |cs| {
      assert cs[..|cs| - 1][..k] == cs[..k];
      UpdatesErrPrefix(cs[..|cs| - 1], k, web);
    } else {
      assert cs[..k] == cs;
    }
  }

  /** The first result's error, else the second's, else both lists one after the other. */
  function Then(x: Result<seq<Descriptor>>, y: Result<seq<Descriptor>>): Result<seq<Descriptor>> {
    if x.Err? then x else if y.Err? then y else Ok(x.value + y.value)
  }

  /** One more turn after two results is one more turn after the second. */
  lemma StepThen(x: Result<seq<Descriptor>>, y: Result<seq<Descriptor>>, c: Component, web: Web)
    ensures Step(Then(x, y), c, web) == Then(x, Step(y, c, web))
  {
    if x.Ok? && y.Ok? {
      match Probe(c, web)
      case Err(_) =>
      case Ok(p) =>
        if p.Some? {
          assert x.value + y.value + [p.value] == x.value + (y.value + [p.value]);
        }
    }
  }

  /** The loop over a concatenation is the loop over each part: the first part's
      error, else the second part's, else the two results one after the other. */
  lemma {:induction false} UpdatesAppend(xs: seq<Component>, ys: seq<Component>, web: Web)
    ensures Updates(xs + ys, web) ==
      if Updates(xs, web).Err? then Updates(xs, web)
      else if Updates(ys, web).Err? then Updates(ys, web)
      else Ok(Updates(xs, web).value + Updates(ys, web).value)
    decreases |ys|
  {
    if ys == [] {
      assert xs + ys == xs;
      assert Updates(ys, web) == Ok([]);
      if Updates(xs, web).Ok? {
        assert Updates(xs, web).value + [] == Updates(xs, web).value;
      }
    } else {
      var ys', last := ys[..|ys| - 1], ys[|ys| - 1];
      assert ys == ys' + [last];
      assert xs + ys == (xs + ys') + [last];
      UpdatesAppend(xs, ys', web);
      UpdatesSnoc(xs + ys', last, web);
      UpdatesSnoc(ys', last, web);
      StepThen(Updates(xs, web), Updates(ys', web), last, web);
      assert Updates(xs + ys, web) == Then(Updates(xs, web), Updates(ys, web));
    }
  }

  /** `checkUpdates` throws exactly when some record's descriptor cannot be fetched,
      or carries a version while the installed or the remote version is malformed. */
  lemma {:induction false} UpdatesOkIff(cs: seq<Component>, web: Web)
    ensures Updates(cs, web).Ok? <==>
      forall i :: 0 <= i < |cs| ==>
        cs[i].manifest in web.json
        && (Truthy(web.json[cs[i].manifest].version) ==>
              ReadSemver(cs[i].version).Ok? && ReadSemver(web.json[cs[i].manifest].version.value).Ok?)
    decreases |cs|
  {
    if cs != [] {
      var init := cs[..|cs| - 1];
      UpdatesOkIff(init, web);
      assert forall i :: 0 <= i < |init| ==> init[i] == cs[i];
    }
  }

  /** The remote descriptor of `c` is `d`, carries a version, and that version is
      an upgrade of the installed one. */
  predicate Offers(c: Component, web: Web, d: Descriptor) {
    c.manifest in web.json && web.json[c.manifest] == d
    && Truthy(d.version) && IsUpgrade(c.version, d.version.value) == Ok(true)
  }

  /** One more turn adds at most the descriptor `c` offers. */
  lemma StepMembers(acc: seq<Descriptor>, c: Component, web: Web)
    requires Step(Ok(acc), c, web).Ok?
    ensures forall d :: d in Step(Ok(acc), c, web).value <==> d in acc || Offers(c, web, d)
  {
  }

  /** When `checkUpdates` returns, it holds exactly the remote descriptors that
      carry a version which `isUpgrade` accepts over the installed version. */
  lemma {:induction false} UpdatesExactly(cs: seq<Component>, web: Web)
    requires Updates(cs, web).Ok?
    ensures forall d :: d in Updates(cs, web).value <==> exists c :: c in cs && Offers(c, web, d)
    decreases |cs|
  {
    if cs != [] {
      var init, last := cs[..|cs| - 1], cs[|cs| - 1];
      assert cs == init + [last];
      assert Updates(cs, web) == Step(Updates(init, web), last, web);
      UpdatesExactly(init, web);
      StepMembers(Updates(init, web).value, last, web);
      forall d ensures d in Updates(cs, web).value <==> exists c :: c in cs && Offers(c, web, d) {
        if exists c :: c in cs && Offers(c, web, d) {
          var c :| c in cs && Offers(c, web, d);
          assert c in init || c == last;
        }
      }
    }
  }

  /** Only the name-independent fields `manifest` and `version` of the top-level
      records are consulted: nested requirements never affect the result. */
  lemma {:induction false} UpdatesIgnoresRequirements(cs: seq<Component>, ds: seq<Component>, web: Web)
    requires |cs| == |ds|
    requires forall i :: 0 <= i < |cs| ==> cs[i].manifest == ds[i].manifest && cs[i].version == ds[i].version
    ensures Updates(cs, web) == Updates(ds, web)
    decreases |cs|
  {
    if cs != [] {
      UpdatesIgnoresRequirements(cs[..|cs| - 1], ds[..|ds| - 1], web);
    }
  }

  /** Some descriptor in `updates` carries the name. */
  predicate Announced(updates: seq<Descriptor>, name: string) {
    exists j :: 0 <= j < |updates| && updates[j].name == Some(name)
  }

  /** The Check-for-Updates handler's map: set `update` on every record that some
      returned descriptor names. */
  function FlagUpdates(cs: seq<Component>, updates: seq<Descriptor>): seq<Component> {
    seq(|cs|, i requires 0 <= i < |cs| => if Announced(updates, cs[i].name) then cs[i].(update := true) else cs[i])
  }

  /** The flag map keeps every record in place with all other fields unchanged; a
      record is flagged afterwards exactly when it was before or a descriptor of
      the same name was returned. */
  lemma FlagUpdatesSpec(cs: seq<Component>, updates: seq<Descriptor>)
    ensures |FlagUpdates(cs, updates)| == |cs|
    ensures forall i :: 0 <= i < |cs| ==>
              && FlagUpdates(cs, updates)[i].(update := cs[i].update) == cs[i]
              && (FlagUpdates(cs, updates)[i].update <==> cs[i].update || Announced(updates, cs[i].name))
  {
  }

  /** Flagging twice with the same descriptors is flagging once. */
  lemma FlagUpdatesIdempotent(cs: seq<Component>, updates: seq<Descriptor>)
    ensures FlagUpdates(FlagUpdates(cs, updates), updates) == FlagUpdates(cs, updates)
  {
    var once := FlagUpdates(cs, updates);
    assert forall i :: 0 <= i < |cs| ==> once[i].name == cs[i].name;
  }

  /** After a check, a record whose descriptor is returned is flagged when the
      descriptor carries the record's own name; a descriptor published under
      another name flags the record of that other name instead. */
  lemma FlagAfterCheck(cs: seq<Component>, web: Web, i: nat)
    requires Updates(cs, web).Ok? && i < |cs|
    requires Probe(cs[i], web).Ok? && Probe(cs[i], web).value.Some?
    requires Probe(cs[i], web).value.value.name == Some(cs[i].name)
    ensures FlagUpdates(cs, Updates(cs, web).value)[i].update
  {
    var d := Probe(cs[i], web).value.value;
    UpdatesExactly(cs, web);
    assert Offers(cs[i], web, d) && cs[i] in cs;
    var us := Updates(cs, web).value;
    assert d in us;
    var j :| 0 <= j < |us| && us[j] == d;
    assert Announced(us, cs[i].name);
  }

  // ---------------------------------------------------------------------------
  // addComponent (ECM.jsx:290-331)
  // ---------------------------------------------------------------------------

  /** What an install sees that it does not change: the components directory, the
      network, and the installed list its dependency checks search. */
  datatype Context = Context(dir: string, web: Web, installed: seq<Component>)

  /** The outcome of a call that writes to the vault: its result and the vault
      afterwards (files written before a throw stay written). */
  datatype Outcome<+T> = Outcome(result: Result<T>, files: map<string, string>)

  /** `addComponent(url)`: fetch the descriptor, demand a name, a version and a
      source, install the requirements not already satisfied, fetch the source text
      and create the component file. `fuel` bounds the depth of the recursion; at
      zero the model answers `Diverges`. */
  function Add(ctx: Context, files: map<string, string>, url: string, fuel: nat): Outcome<Component>
    decreases fuel, 0, 0
  {
    if fuel == 0 then Outcome(Err(Diverges), files)
    else if url !in ctx.web.json then Outcome(Err(NetworkError(url)), files)
    else
      var d := ctx.web.json[url];
      if !Truthy(d.name) || !Truthy(d.version) || !Truthy(d.source) then
        Outcome(Err(InvalidManifestFormat), files)
      else
        var sub := AddRequirements(ctx, files, Requisites(d), 0, [], fuel - 1);
        if sub.result.Err? then Outcome(Err(sub.result.error), sub.files)
        else
          var src := d.source.value;
          var path := ComponentPath(ctx.dir, d.name.value);
          if src !in ctx.web.text then Outcome(Err(NetworkError(src)), sub.files)
          else if path in sub.files then Outcome(Err(FileExists(path)), sub.files)
          else
            var c := Component(d.name.value, d.version.value, url, src, path, false,
                               Listed(Present(sub.result.value)), false);
            Outcome(Ok(c), sub.files[path := ctx.web.text[src]])
  }

  /** The requirement loop from position `i`, with `acc` the records pushed so far:
      a requirement `checkDependency` reports present is skipped, any other is
      installed and pushed; the first throw ends the loop. */
  function AddRequirements(ctx: Context, files: map<string, string>, reqs: seq<Requirement>,
                           i: nat, acc: seq<Component>, fuel: nat): Outcome<seq<Component>>
    requires i <= |reqs|
    decreases fuel, 1, |reqs| - i
  {
    if i == |reqs| then Outcome(Ok(acc), files)
    else
      match CheckDependency(ctx.installed, ctx.web, reqs[i].manifest)
      case Err(e) => Outcome(Err(e), files)
      case Ok(present) =>
        if present then AddRequirements(ctx, files, reqs, i + 1, acc, fuel)
        else
          var sub := Add(ctx, files, reqs[i].manifest, fuel);
          if sub.result.Err? then Outcome(Err(sub.result.error), sub.files)
          else AddRequirements(ctx, sub.files, reqs, i + 1, acc + [sub.result.value], fuel)
  }

  /** A loop whose every remaining requirement is reported present fetches and
      writes nothing and pushes nothing. */
  lemma {:induction false} AddRequirementsAllPresent(ctx: Context, files: map<string, string>, reqs: seq<Requirement>,
                                                     i: nat, acc: seq<Component>, fuel: nat)
    requires i <= |reqs|
    requires forall k :: i <= k < |reqs| ==> CheckDependency(ctx.installed, ctx.web, reqs[k].manifest) == Ok(true)
    ensures AddRequirements(ctx, files, reqs, i, acc, fuel) == Outcome(Ok(acc), files)
    decreases |reqs| - i
  {
    if i < |reqs| {
      var dep := CheckDependency(ctx.installed, ctx.web, reqs[i].manifest);
      assert dep == Ok(true);
      AddRequirementsAllPresent(ctx, files, reqs, i + 1, acc, fuel);
      assert AddRequirements(ctx, files, reqs, i, acc, fuel) == AddRequirements(ctx, files, reqs, i + 1, acc, fuel);
    }
  }

  /** When `checkDependency` reports every requirement of a valid descriptor
      present, no requirement is installed again: the install writes its own
      component file and nothing else, and records no requirements. */
  lemma AddSatisfied(ctx: Context, files: map<string, string>, url: string, fuel: nat)
    requires fuel > 0 && url in ctx.web.json
    requires Truthy(ctx.web.json[url].name) && Truthy(ctx.web.json[url].version) && Truthy(ctx.web.json[url].source)
    requires forall k :: 0 <= k < |Requisites(ctx.web.json[url])| ==>
               CheckDependency(ctx.installed, ctx.web, Requisites(ctx.web.json[url])[k].manifest) == Ok(true)
    ensures var d := ctx.web.json[url];
      var path := ComponentPath(ctx.dir, d.name.value);
      var out := Add(ctx, files, url, fuel);
      && (out.result.Ok? <==> d.source.value in ctx.web.text && path !in files)
      && (out.result.Ok? ==> out.files == files[path := ctx.web.text[d.source.value]]
                             && out.result.value.requirements == Listed([]))
      && (out.result.Err? ==> out.files == files)
  {
    AddRequirementsAllPresent(ctx, files, Requisites(ctx.web.json[url]), 0, [], fuel - 1);
  }

  /** No file that existed is removed or overwritten. */
  predicate Keeps(before: map<string, string>, after: map<string, string>) {
    forall p :: p in before ==> p in after && after[p] == before[p]
  }

  /** An install only ever creates files: every file that existed keeps its text,
      whether the install succeeds or throws. */
  lemma {:induction false} AddKeeps(ctx: Context, files: map<string, string>, url: string, fuel: nat)
    ensures Keeps(files, Add(ctx, files, url, fuel).files)
    decreases fuel, 0, 0
  {
    if fuel > 0 && url in ctx.web.json {
      var d := ctx.web.json[url];
      if Truthy(d.name) && Truthy(d.version) && Truthy(d.source) {
        AddRequirementsKeeps(ctx, files, Requisites(d), 0, [], fuel - 1);
      }
    }
  }

  lemma {:induction false} AddRequirementsKeeps(ctx: Context, files: map<string, string>, reqs: seq<Requirement>,
                                                i: nat, acc: seq<Component>, fuel: nat)
    requires i <= |reqs|
    ensures Keeps(files, AddRequirements(ctx, files, reqs, i, acc, fuel).files)
    decreases fuel, 1, |reqs| - i
  {
    if i < |reqs| {
      var dep := CheckDependency(ctx.installed, ctx.web, reqs[i].manifest);
      if dep == Ok(true) {
        AddRequirementsKeeps(ctx, files, reqs, i + 1, acc, fuel);
      } else if dep == Ok(false) {
        var sub := Add(ctx, files, reqs[i].manifest, fuel);
        AddKeeps(ctx, files, reqs[i].manifest, fuel);
        if sub.result.Ok? {
          AddRequirementsKeeps(ctx, sub.files, reqs, i + 1, acc + [sub.result.value], fuel);
        }
      }
    }
  }

  /** A descriptor without a name, a version or a source throws before anything is
      fetched or written. */
  lemma AddInvalidWritesNothing(ctx: Context, files: map<string, string>, url: string, fuel: nat)
    requires fuel > 0 && url in ctx.web.json
    requires var d := ctx.web.json[url]; !Truthy(d.name) || !Truthy(d.version) || !Truthy(d.source)
    ensures Add(ctx, files, url, fuel) == Outcome(Err(InvalidManifestFormat), files)
  {
  }

  /** A successful install returns the descriptor's name, version and source with
      `filePath = ${dir}/${name}.jsx` and `manifest` the URL it was given; that file
      did not exist before and now holds the fetched source text. */
  lemma AddCreatesFile(ctx: Context, files: map<string, string>, url: string, fuel: nat)
    requires Add(ctx, files, url, fuel).result.Ok?
    ensures var c := Add(ctx, files, url, fuel).result.value;
      && url in ctx.web.json
      && ctx.web.json[url].name == Some(c.name) && ctx.web.json[url].version == Some(c.version)
      && ctx.web.json[url].source == Some(c.source)
      && c.name != "" && c.version != "" && c.source != ""
      && c.manifest == url && c.filePath == ComponentPath(ctx.dir, c.name)
      && !c.isProtected && !c.update && c.requirements.Listed?
      && (forall e :: e in c.requirements.entries ==> e.Some?)
      && c.filePath !in files
      && c.source in ctx.web.text
      && c.filePath in Add(ctx, files, url, fuel).files
      && Add(ctx, files, url, fuel).files[c.filePath] == ctx.web.text[c.source]
  {
    var d := ctx.web.json[url];
    AddRequirementsKeeps(ctx, files, Requisites(d), 0, [], fuel - 1);
  }

  /** A record an install returns was installed from the URL it was given. */
  lemma AddManifest(ctx: Context, files: map<string, string>, url: string, fuel: nat)
    requires Add(ctx, files, url, fuel).result.Ok?
    ensures Add(ctx, files, url, fuel).result.value.manifest == url
  {
  }

  /** The manifests of a list of records. */
  function Manifests(cs: seq<Component>): (r: seq<string>)
    ensures |r| == |cs|
    ensures forall i :: 0 <= i < |cs| ==> r[i] == cs[i].manifest
  {
    seq(|cs|, i requires 0 <= i < |cs| => cs[i].manifest)
  }

  /** The requirement manifests from position `i` that `checkDependency` does not
      report as present, in descriptor order. */
  function Pending(ctx: Context, reqs: seq<Requirement>, i: nat): seq<string>
    requires i <= |reqs|
    decreases |reqs| - i
  {
    if i == |reqs| then []
    else
      (if CheckDependency(ctx.installed, ctx.web, reqs[i].manifest) == Ok(true) then [] else [reqs[i].manifest])
      + Pending(ctx, reqs, i + 1)
  }

  lemma {:induction false} AddRequirementsOrder(ctx: Context, files: map<string, string>, reqs: seq<Requirement>,
                                                i: nat, acc: seq<Component>, fuel: nat)
    requires i <= |reqs|
    requires AddRequirements(ctx, files, reqs, i, acc, fuel).result.Ok?
    ensures Manifests(AddRequirements(ctx, files, reqs, i, acc, fuel).result.value) == Manifests(acc) + Pending(ctx, reqs, i)
    decreases |reqs| - i, 1
  {
    if i == |reqs| {
      assert Manifests(acc) + [] == Manifests(acc);
    } else if CheckDependency(ctx.installed, ctx.web, reqs[i].manifest) == Ok(true) {
      assert AddRequirements(ctx, files, reqs, i, acc, fuel) == AddRequirements(ctx, files, reqs, i + 1, acc, fuel);
      assert Pending(ctx, reqs, i) == Pending(ctx, reqs, i + 1);
      AddRequirementsOrder(ctx, files, reqs, i + 1, acc, fuel);
    } else {
      var dep := CheckDependency(ctx.installed, ctx.web, reqs[i].manifest);
      assert dep.Ok?;
      AddRequirementsOrderInstalled(ctx, files, reqs, i, acc, fuel);
    }
  }

  /** The turn of the loop that installs requirement `i`. */
  lemma {:induction false} AddRequirementsOrderInstalled(ctx: Context, files: map<string, string>, reqs: seq<Requirement>,
                                                         i: nat, acc: seq<Component>, fuel: nat)
    requires i < |reqs|
    requires CheckDependency(ctx.installed, ctx.web, reqs[i].manifest) == Ok(false)
    requires AddRequirements(ctx, files, reqs, i, acc, fuel).result.Ok?
    ensures Manifests(AddRequirements(ctx, files, reqs, i, acc, fuel).result.value) == Manifests(acc) + Pending(ctx, reqs, i)
    decreases |reqs| - i, 0
  {
    var sub := Add(ctx, files, reqs[i].manifest, fuel);
    assert sub.result.Ok?;
    AddManifest(ctx, files, reqs[i].manifest, fuel);
    var acc' := acc + [sub.result.value];
    assert AddRequirements(ctx, files, reqs, i, acc, fuel) == AddRequirements(ctx, sub.files, reqs, i + 1, acc', fuel);
    AddRequirementsOrder(ctx, sub.files, reqs, i + 1, acc', fuel);
    assert Pending(ctx, reqs, i) == [reqs[i].manifest] + Pending(ctx, reqs, i + 1);
    ManifestsSnoc(acc, sub.result.value, Pending(ctx, reqs, i + 1));
  }

  lemma ManifestsSnoc(acc: seq<Component>, c: Component, rest: seq<string>)
    ensures Manifests(acc + [c]) + rest == Manifests(acc) + ([c.manifest] + rest)
  {
    assert Manifests(acc + [c]) == Manifests(acc) + [c.manifest];
  }

  /** A successful install lists as its requirements exactly one record per
      requirement that was not reported present, in descriptor order, each
      installed from that requirement's manifest. */
  lemma AddRequirementsInOrder(ctx: Context, files: map<string, string>, url: string, fuel: nat)
    requires Add(ctx, files, url, fuel).result.Ok?
    ensures var c := Add(ctx, files, url, fuel).result.value;
      url in ctx.web.json && c.requirements.Listed?
      && (forall e :: e in c.requirements.entries ==> e.Some?)
      && Manifests(Compact(c.requirements.entries)) == Pending(ctx, Requisites(ctx.web.json[url]), 0)
  {
    var d := ctx.web.json[url];
    var sub := AddRequirements(ctx, files, Requisites(d), 0, [], fuel - 1);
    AddRequirementsOrder(ctx, files, Requisites(d), 0, [], fuel - 1);
    CompactPresent(sub.result.value);
    assert Manifests([]) + Pending(ctx, Requisites(d), 0) == Pending(ctx, Requisites(d), 0);
  }

  /** More fuel changes nothing once the recursion fits in the fuel given. */
  lemma {:induction false} AddFuel(ctx: Context, files: map<string, string>, url: string, fuel: nat)
    requires Add(ctx, files, url, fuel).result != Err(Diverges)
    ensures Add(ctx, files, url, fuel + 1) == Add(ctx, files, url, fuel)
    decreases fuel, 0, 0
  {
    if url in ctx.web.json {
      var d := ctx.web.json[url];
      if Truthy(d.name) && Truthy(d.version) && Truthy(d.source) {
        AddRequirementsFuel(ctx, files, Requisites(d), 0, [], fuel - 1);
      }
    }
  }

  lemma {:induction false} AddRequirementsFuel(ctx: Context, files: map<string, string>, reqs: seq<Requirement>,
                                               i: nat, acc: seq<Component>, fuel: nat)
    requires i <= |reqs|
    requires AddRequirements(ctx, files, reqs, i, acc, fuel).result != Err(Diverges)
    ensures AddRequirements(ctx, files, reqs, i, acc, fuel + 1) == AddRequirements(ctx, files, reqs, i, acc, fuel)
    decreases fuel, 1, |reqs| - i
  {
    if i < |reqs| {
      var dep := CheckDependency(ctx.installed, ctx.web, reqs[i].manifest);
      if dep == Ok(true) {
        AddRequirementsFuel(ctx, files, reqs, i + 1, acc, fuel);
      } else if dep == Ok(false) {
        var sub := Add(ctx, files, reqs[i].manifest, fuel);
        AddFuel(ctx, files, reqs[i].manifest, fuel);
        if sub.result.Ok? {
          AddRequirementsFuel(ctx, sub.files, reqs, i + 1, acc + [sub.result.value], fuel);
        }
      }
    }
  }

  // ---------------------------------------------------------------------------
  // updateComponent (ECM.jsx:360-429)
  // ---------------------------------------------------------------------------

  /** `updateComponent(name)`: find the top-level record, fetch its descriptor,
      give up quietly unless it carries a version that `isUpgrade` accepts, then
      fetch the new source text, overwrite the record's file and return the record
      with the new version and no update flag. */
  function Upgrade(ctx: Context, files: map<string, string>, name: string): Outcome<Option<Component>> {
    var found := FirstNamed(ctx.installed, name);
    if found.None? then Outcome(Ok(None), files)
    else
      var c := found.value;
      if c.manifest !in ctx.web.json then Outcome(Err(NetworkError(c.manifest)), files)
      else
        var d := ctx.web.json[c.manifest];
        if !Truthy(d.version) then Outcome(Ok(None), files)
        else
          match IsUpgrade(c.version, d.version.value)
          case Err(e) => Outcome(Err(e), files)
          case Ok(up) =>
            if !up then Outcome(Ok(None), files)
            else
              var src := SourceUrl(d);
              if src !in ctx.web.text then Outcome(Err(NetworkError(src)), files)
              else if c.filePath !in files then Outcome(Err(FileMissing(c.filePath)), files)
              else
                Outcome(Ok(Some(c.(version := d.version.value, update := false))),
                        files[c.filePath := ctx.web.text[src]])
  }

  /** Nothing happens and nothing is returned when no top-level record has the
      name, when its descriptor has no version, or when that version is not an
      upgrade. */
  lemma UpgradeQuietCases(ctx: Context, files: map<string, string>, name: string)
    ensures FirstNamed(ctx.installed, name).None? ==> Upgrade(ctx, files, name) == Outcome(Ok(None), files)
    ensures forall i :: 0 <= i < |ctx.installed| && ctx.installed[i].name == name
                        && (forall j :: 0 <= j < i ==> ctx.installed[j].name != name)
                        && ctx.installed[i].manifest in ctx.web.json
                        && (!Truthy(ctx.web.json[ctx.installed[i].manifest].version)
                            || IsUpgrade(ctx.installed[i].version,
                                         ctx.web.json[ctx.installed[i].manifest].version.value) == Ok(false))
                        ==> Upgrade(ctx, files, name) == Outcome(Ok(None), files)
  {
    forall i | 0 <= i < |ctx.installed| && ctx.installed[i].name == name
               && (forall j :: 0 <= j < i ==> ctx.installed[j].name != name)
      ensures FirstNamed(ctx.installed, name) == Some(ctx.installed[i])
    {
      var k :| 0 <= k < |ctx.installed| && ctx.installed[k] == FirstNamed(ctx.installed, name).value
               && ctx.installed[k].name == name && forall j :: 0 <= j < k ==> ctx.installed[j].name != name;
      assert k == i;
    }
  }

  /** An upgrade returns the first top-level record of that name with the new
      version and the update flag cleared, everything else unchanged; the version is
      an upgrade of the old one, and only that record's file changed, now holding
      the fetched text. */
  lemma UpgradeResult(ctx: Context, files: map<string, string>, name: string)
    requires Upgrade(ctx, files, name).result.Ok? && Upgrade(ctx, files, name).result.value.Some?
    ensures var c := FirstNamed(ctx.installed, name);
      var u := Upgrade(ctx, files, name).result.value.value;
      && c.Some? && u.name == name && !u.update
      && u.(version := c.value.version, update := c.value.update) == c.value
      && c.value.manifest in ctx.web.json && ctx.web.json[c.value.manifest].version == Some(u.version)
      && IsUpgrade(c.value.version, u.version) == Ok(true)
      && c.value.filePath in files
      && Upgrade(ctx, files, name).files
         == files[c.value.filePath := ctx.web.text[SourceUrl(ctx.web.json[c.value.manifest])]]
  {
  }

  /** The Update link's map (ECM.jsx:525-527): every record of that name becomes `u`. */
  function ReplaceNamed(cs: seq<Component>, name: string, u: Component): (r: seq<Component>)
    ensures |r| == |cs|
  {
    seq(|cs|, i requires 0 <= i < |cs| => if cs[i].name == name then u else cs[i])
  }

  /** Replacing by a record of the same name keeps every name in place and every
      other record untouched, and a later `find` by that name gives the replacement
      exactly when the name was there before. */
  lemma ReplaceNamedKeepsOthers(cs: seq<Component>, name: string, u: Component)
    requires u.name == name
    ensures Names(ReplaceNamed(cs, name, u)) == Names(cs)
    ensures forall i :: 0 <= i < |cs| && cs[i].name != name ==> ReplaceNamed(cs, name, u)[i] == cs[i]
    ensures FirstNamed(ReplaceNamed(cs, name, u), name)
            == if FirstNamed(cs, name).Some? then Some(u) else None
  {
    var r := ReplaceNamed(cs, name, u);
    assert Names(r) == Names(cs);
    if FirstNamed(r, name).Some? {
      var i :| 0 <= i < |r| && r[i] == FirstNamed(r, name).value && r[i].name == name;
      assert cs[i].name == name;
    }
    if FirstNamed(cs, name).Some? {
      var i :| 0 <= i < |cs| && cs[i] == FirstNamed(cs, name).value && cs[i].name == name;
      assert r[i].name == name;
    }
  }

  /** Once the upgraded record replaces the old one, asking again finds nothing to do. */
  lemma UpgradeSettles(ctx: Context, files: map<string, string>, name: string)
    requires Upgrade(ctx, files, name).result.Ok? && Upgrade(ctx, files, name).result.value.Some?
    ensures var u := Upgrade(ctx, files, name).result.value.value;
      var ctx' := ctx.(installed := ReplaceNamed(ctx.installed, name, u));
      Upgrade(ctx', Upgrade(ctx, files, name).files, name) == Outcome(Ok(None), Upgrade(ctx, files, name).files)
  {
    var u := Upgrade(ctx, files, name).result.value.value;
    UpgradeResult(ctx, files, name);
    var cs' := ReplaceNamed(ctx.installed, name, u);
    var k :| 0 <= k < |ctx.installed| && ctx.installed[k].name == name;
    var first := FirstNamed(cs', name);
    assert first.Some? by { assert cs'[k].name == name; }
    var i :| 0 <= i < |cs'| && cs'[i] == first.value && cs'[i].name == name;
    assert first.value == u;
    var d := ctx.web.json[u.manifest];
    IsUpgradeIrreflexive(u.version);
  }

  // ---------------------------------------------------------------------------
  // updateIndex's walk (ECM.jsx:157-179)
  // ---------------------------------------------------------------------------

  /** The recursive `addExports` closure, pushing onto the collected names `acc`. */
  method AddExports(component: Option<Component>, acc: seq<string>) returns (out: seq<string>)
    ensures out == if component.Some? then Visit(component.value, acc) else acc
    decreases component
  {
    if component.None? {
      return acc;
    }
    var c := component.value;
    if c.name in acc {
      return acc;
    }
    out := acc + [c.name];
    if c.requirements.Listed? {
      var requirements := c.requirements.entries;
      for i := 0 to |requirements|
        invariant VisitFrom(c, i, out) == VisitFrom(c, 0, acc + [c.name])
      {
        if requirements[i].None? {
          continue;
        }
        out := AddExports(requirements[i], out);
      }
    }
  }

  /** The top-level loop of `updateIndex`: the collected names are `Flatten`'s. */
  method CollectExports(updated: seq<Option<Component>>) returns (names: seq<string>)
    ensures names == Flatten(updated)
  {
    names := [];
    for i := 0 to |updated|
      invariant VisitList(updated[i..], names) == Flatten(updated)
    {
      assert updated[i..][1..] == updated[i + 1..];
      names := AddExports(updated[i], names);
    }
    assert updated[|updated|..] == [];
  }

  // ---------------------------------------------------------------------------
  // The component's state and its operations
  // ---------------------------------------------------------------------------

  /** The state of one mounted manager: its directory and the network it reaches
      (fixed), the component list it shows, the vault's files, the stored
      `components` field of the manifest document (`None` for a null field), and
      the error message it shows. */
  class Manager {
    const dir: string
    const web: Web
    var components: seq<Component>
    var files: map<string, string>
    var stored: Option<seq<Option<Component>>>
    var error: Option<Error>

    /** Mounting: the list is loaded from the stored field, nulls dropped. */
    constructor (dir: string, web: Web, files: map<string, string>, stored: Option<seq<Option<Component>>>)
      ensures this.dir == dir && this.web == web && this.files == files && this.stored == stored
      ensures components == Loaded(stored) && error == None
    {
      this.dir := dir;
      this.web := web;
      this.files := files;
      this.stored := stored;
      components := Loaded(stored);
      error := None;
    }

    /** What installs and upgrades read from the state. */
    function Ctx(): Context
      reads this
    {
      Context(dir, web, components)
    }

    /** `updateIndex(updated)`: the index file holds one export line per collected name. */
    method UpdateIndex(updated: seq<Component>)
      modifies this`files
      ensures files == old(files)[IndexPath(dir) := IndexText(Flatten(Present(updated)))]
    {
      var names := CollectExports(Present(updated));
      files := files[IndexPath(dir) := IndexText(names)];
    }

    /** `updateManifest(updated)`: merge into the stored field, rewrite the index
        from `updated`, reload the list. A null stored field throws before anything
        is written. */
    method UpdateManifest(updated: seq<Component>) returns (r: Result<()>)
      modifies this`stored, this`files, this`components
      ensures Merge(old(stored), updated).Err? ==>
                r == Err(Merge(old(stored), updated).error)
                && stored == old(stored) && files == old(files) && components == old(components)
      ensures Merge(old(stored), updated).Ok? ==>
                && r == Ok(())
                && stored == Some(Present(Merge(old(stored), updated).value))
                && files == old(files)[IndexPath(dir) := IndexText(Flatten(Present(updated)))]
                && components == Merge(old(stored), updated).value
    {
      if stored.None? {
        return Err(TypeError);
      }
      var kept := Compact(stored.value);
      var merged: seq<Component> := [];
      for i := 0 to |kept|
        invariant merged == Merge(stored, updated).value[..i]
      {
        var c := kept[i];
        var u := FirstNamed(updated, c.name);
        merged := merged + [if u.Some? then u.value else c];
      }
      assert merged == Merge(stored, updated).value;
      stored := Some(Present(merged));
      UpdateIndex(updated);
      CompactPresent(merged);
      components := Loaded(stored);
      r := Ok(());
    }

    /** `checkUpdates()`: the loop over the top-level records. */
    method CheckUpdates() returns (r: Result<seq<Descriptor>>)
      ensures r == Updates(components, web)
    {
      var found: seq<Descriptor> := [];
      for i := 0 to |components|
        invariant Updates(components[..i], web) == Ok(found)
      {
        var c := components[i];
        assert components[..i + 1] == components[..i] + [c];
        UpdatesSnoc(components[..i], c, web);
        if c.manifest !in web.json {
          UpdatesErrPrefix(components, i + 1, web);
          return Err(NetworkError(c.manifest));
        }
        var manifest := web.json[c.manifest];
        if !Truthy(manifest.version) {
          continue;
        }
        var up := IsUpgrade(c.version, manifest.version.value);
        if up.Err? {
          UpdatesErrPrefix(components, i + 1, web);
          return Err(up.error);
        }
        if !up.value {
          continue;
        }
        found := found + [manifest];
      }
      assert components[..|components|] == components;
      r := Ok(found);
    }

    /** The Check-for-Updates button: flag the records an update was found for;
        a throwing check leaves the list as it was. */
    method CheckForUpdatesClicked()
      modifies this`components
      ensures Updates(old(components), web).Ok? ==>
                components == FlagUpdates(old(components), Updates(old(components), web).value)
      ensures Updates(old(components), web).Err? ==> components == old(components)
    {
      var updates := CheckUpdates();
      if updates.Ok? {
        components := FlagUpdates(components, updates.value);
      }
    }

    /** `addComponent(url)`, recursing on the requirements; `fuel` bounds the depth. */
    method AddComponent(url: string, fuel: nat) returns (r: Result<Component>)
      modifies this`files
      ensures Outcome(r, files) == Add(Ctx(), old(files), url, fuel)
      decreases fuel
    {
      if fuel == 0 {
        return Err(Diverges);
      }
      if url !in web.json {
        return Err(NetworkError(url));
      }
      var manifest := web.json[url];
      if !Truthy(manifest.name) || !Truthy(manifest.version) || !Truthy(manifest.source) {
        return Err(InvalidManifestFormat);
      }
      var reqs := Requisites(manifest);
      var requirements: seq<Component> := [];
      ghost var files0 := files;
      for i := 0 to |reqs|
        invariant AddRequirements(Ctx(), files, reqs, i, requirements, fuel - 1)
                  == AddRequirements(Ctx(), files0, reqs, 0, [], fuel - 1)
      {
        var present := CheckDependency(components, web, reqs[i].manifest);
        if present.Err? {
          return Err(present.error);
        }
        if present.value {
          continue;
        }
        var sub := AddComponent(reqs[i].manifest, fuel - 1);
        if sub.Err? {
          return Err(sub.error);
        }
        requirements := requirements + [sub.value];
      }
      var src := manifest.source.value;
      if src !in web.text {
        return Err(NetworkError(src));
      }
      var code := web.text[src];
      var filePath := ComponentPath(dir, manifest.name.value);
      if filePath in files {
        return Err(FileExists(filePath));
      }
      files := files[filePath := code];
      r := Ok(Component(manifest.name.value, manifest.version.value, url, src, filePath, false,
                        Listed(Present(requirements)), false));
    }

    /** The Add button: install, then persist the old list followed by the new
        record; a throw from either is shown as the error. */
    method AddClicked(url: string, fuel: nat)
      modifies this`files, this`stored, this`components, this`error
      ensures var added := Add(old(Ctx()), old(files), url, fuel);
        added.result.Err? ==>
          files == added.files && error == Some(added.result.error)
          && stored == old(stored) && components == old(components)
      ensures var added := Add(old(Ctx()), old(files), url, fuel);
        added.result.Ok? ==>
          var updated := old(components) + [added.result.value];
          if Merge(old(stored), updated).Err? then
            files == added.files && error == Some(Merge(old(stored), updated).error)
            && stored == old(stored) && components == old(components)
          else
            && files == added.files[IndexPath(dir) := IndexText(Flatten(Present(updated)))]
            && stored == Some(Present(Merge(old(stored), updated).value))
            && components == Merge(old(stored), updated).value
            && error == old(error)
    {
      var added := AddComponent(url, fuel);
      if added.Err? {
        error := Some(added.error);
        return;
      }
      var persisted := UpdateManifest(components + [added.value]);
      if persisted.Err? {
        error := Some(persisted.error);
      }
    }

    /** `deleteComponent(name)`: trash the file, drop every record of that name from
        the list, persist. A missing file throws before anything changes; a throw
        from the merge leaves the file trashed and the list filtered. */
    method DeleteComponent(name: string)
      modifies this`files, this`components, this`stored
      ensures ComponentPath(dir, name) !in old(files) ==>
                files == old(files) && components == old(components) && stored == old(stored)
      ensures var updated := Without(old(components), name);
        ComponentPath(dir, name) in old(files) && Merge(old(stored), updated).Err? ==>
          files == old(files) - {ComponentPath(dir, name)} && components == updated && stored == old(stored)
      ensures var updated := Without(old(components), name);
        ComponentPath(dir, name) in old(files) && Merge(old(stored), updated).Ok? ==>
          && files == (old(files) - {ComponentPath(dir, name)})[IndexPath(dir) := IndexText(Flatten(Present(updated)))]
          && stored == Some(Present(Merge(old(stored), updated).value))
          && components == Merge(old(stored), updated).value
    {
      var path := ComponentPath(dir, name);
      if path !in files {
        return;
      }
      files := files - {path};
      var updated := Without(components, name);
      components := updated;
      var _ := UpdateManifest(updated);
    }

    /** `updateComponent(name)`. */
    method UpdateComponent(name: string) returns (r: Result<Option<Component>>)
      modifies this`files
      ensures Outcome(r, files) == Upgrade(Ctx(), old(files), name)
    {
      var component := FirstNamed(components, name);
      if component.None? {
        return Ok(None);
      }
      var c := component.value;
      if c.manifest !in web.json {
        return Err(NetworkError(c.manifest));
      }
      var manifest := web.json[c.manifest];
      if !Truthy(manifest.version) {
        return Ok(None);
      }
      var up := IsUpgrade(c.version, manifest.version.value);
      if up.Err? {
        return Err(up.error);
      }
      if !up.value {
        return Ok(None);
      }
      var src := SourceUrl(manifest);
      if src !in web.text {
        return Err(NetworkError(src));
      }
      if c.filePath !in files {
        return Err(FileMissing(c.filePath));
      }
      files := files[c.filePath := web.text[src]];
      r := Ok(Some(c.(version := manifest.version.value, update := false)));
    }
  }
}
