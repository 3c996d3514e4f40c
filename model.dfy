/** The records both managers keep, the descriptors they fetch, and the list
    transforms they share (pkg.elk.wtf/ecm/ECM.jsx and pkg.elk.wtf/ecm/ECM/ECM.jsx). */
module Model {
  import opened Base

  /** A record's `requires` field: absent, or a list whose entries may be null. */
  datatype RequiresField = Absent | Listed(entries: seq<Option<Component>>)

  /** An installed component as the manifest document stores it.
      `requirements` (the source's `requires`) is absent on hand-written entries and may hold `null` entries
      where a nested install failed in the earlier manager; `update` is the flag
      the later manager sets after a check for updates. */
  datatype Component = Component(
    name: string,
    version: string,
    manifest: string,
    source: string,
    filePath: string,
    isProtected: bool,
    requirements: RequiresField,
    update: bool)

  /** One entry of a descriptor's `requires` list. */
  datatype Requirement = Requirement(manifest: string, name: Option<string>, version: Option<string>)

  /** The JSON a manifest URL serves; every field may be missing. */
  datatype Descriptor = Descriptor(
    name: Option<string>,
    version: Option<string>,
    source: Option<string>,
    requirements: Option<seq<Requirement>>)

  /** The network: the parsed JSON body and the text body each URL serves.
      A URL missing from a map is a fetch (or a JSON parse) that rejects. */
  datatype Web = Web(json: map<string, Descriptor>, text: map<string, string>)

  /** `${componentsDir}/${name}.jsx` */
  function ComponentPath(dir: string, name: string): string {
    dir + "/" + name + ".jsx"
  }

  /** `${componentsDir}/index.js` */
  function IndexPath(dir: string): string {
    dir + "/index.js"
  }

  /** `manifest.requires || []` */
  function Requisites(d: Descriptor): seq<Requirement> {
    if d.requirements.Some? then d.requirements.value else []
  }

  /** The URL `fetch(manifest.source)` requests: an absent source is coerced to "undefined". */
  function SourceUrl(d: Descriptor): string {
    if d.source.Some? then d.source.value else "undefined"
  }

  /** The direct requirements of a record, `[]` when `requires` is absent. */
  function Children(c: Component): seq<Option<Component>> {
    if c.requirements.Listed? then c.requirements.entries else []
  }

  /** The names of a list of records. */
  function Names(cs: seq<Component>): (r: seq<string>)
    ensures |r| == |cs|
    ensures forall i :: 0 <= i < |cs| ==> r[i] == cs[i].name
  {
    seq(|cs|, i requires 0 <= i < |cs| => cs[i].name)
  }

  /** Wrap every record as a present list entry. */
  function Present(cs: seq<Component>): (r: seq<Option<Component>>)
    ensures |r| == |cs|
    ensures forall i :: 0 <= i < |cs| ==> r[i] == Some(cs[i])
  {
    seq(|cs|, i requires 0 <= i < |cs| => Some(cs[i]))
  }

  /** `list.filter(Boolean)` and `list.filter((c) => c != null)`: drop the absent
      entries, keep the others in order. */
  function Compact(xs: seq<Option<Component>>): (r: seq<Component>)
    ensures |r| <= |xs|
    ensures forall c :: c in r <==> Some(c) in xs
  {
    if xs == [] then []
    else (if xs[0].Some? then [xs[0].value] else []) + Compact(xs[1..])
  }

  lemma {:induction false} CompactAppend(xs: seq<Option<Component>>, ys: seq<Option<Component>>)
    ensures Compact(xs + ys) == Compact(xs) + Compact(ys)
    decreases |xs|
  {
    if xs != [] {
      assert (xs + ys)[1..] == xs[1..] + ys;
      CompactAppend(xs[1..], ys);
    } else {
      assert xs + ys == ys;
    }
  }

  lemma {:induction false} CompactPresent(cs: seq<Component>)
    ensures Compact(Present(cs)) == cs
    decreases |cs|
  {
    if cs != [] {
      assert Present(cs)[1..] == Present(cs[1..]);
      CompactPresent(cs[1..]);
      assert cs == [cs[0]] + cs[1..];
    }
  }

  /** What `loadManifest` puts in the component list: the stored `components`
      (or `[]` when the field is null) without its null entries. */
  function Loaded(stored: Option<seq<Option<Component>>>): (r: seq<Component>)
    ensures forall c :: c in r <==> stored.Some? && Some(c) in stored.value
  {
    if stored.Some? then Compact(stored.value) else []
  }

  /** A requirement entry that a search by name (`find`, `some`) passes over:
      present, with another name. */
  predicate Skips(e: Option<Component>, name: Option<string>) {
    e.Some? && Some(e.value.name) != name
  }

  /** `cs.find((c) => c.name === name)`: the first record with that name, if any. */
  function FirstNamed(cs: seq<Component>, name: string): (r: Option<Component>)
    ensures r.None? <==> forall i :: 0 <= i < |cs| ==> cs[i].name != name
    ensures r.Some? ==> exists i :: 0 <= i < |cs| && cs[i] == r.value && cs[i].name == name
                                   && forall j :: 0 <= j < i ==> cs[j].name != name
  {
    if cs == [] then None
    else if cs[0].name == name then Some(cs[0])
    else
      var r := FirstNamed(cs[1..], name);
      assert r.Some? ==> exists i :: 1 <= i < |cs| && cs[i] == r.value && cs[i].name == name
                                     && forall j :: 0 <= j < i ==> cs[j].name != name by {
        if r.Some? {
          var k :| 0 <= k < |cs[1..]| && cs[1..][k] == r.value && cs[1..][k].name == name
                   && forall j :: 0 <= j < k ==> cs[1..][j].name != name;
          assert cs[k + 1] == r.value;
          forall j | 0 <= j < k + 1 ensures cs[j].name != name {
            if j > 0 { assert cs[1..][j - 1] == cs[j]; }
          }
        }
      }
      r
  }

  /** The delete filter `components.filter((c) => c.name !== name)`
      (ECM.jsx:345, ECM/ECM.jsx:223): exactly the entries with another name stay. */
  function Without(cs: seq<Component>, name: string): (r: seq<Component>)
    ensures |r| <= |cs|
    ensures forall c :: c in r <==> c in cs && c.name != name
  {
    if cs == [] then []
    else (if cs[0].name != name then [cs[0]] else []) + Without(cs[1..], name)
  }

  /** The filter keeps relative order: it distributes over concatenation. */
  lemma {:induction false} WithoutAppend(xs: seq<Component>, ys: seq<Component>, name: string)
    ensures Without(xs + ys, name) == Without(xs, name) + Without(ys, name)
    decreases |xs|
  {
    if xs != [] {
      assert (xs + ys)[1..] == xs[1..] + ys;
      WithoutAppend(xs[1..], ys, name);
    } else {
      assert xs + ys == ys;
    }
  }

  /** Nothing is removed when no entry carries the name. */
  lemma {:induction false} WithoutAbsent(cs: seq<Component>, name: string)
    requires forall i :: 0 <= i < |cs| ==> cs[i].name != name
    ensures Without(cs, name) == cs
    decreases |cs|
  {
    if cs != [] {
      WithoutAbsent(cs[1..], name);
      assert cs == [cs[0]] + cs[1..];
    }
  }

  /** Deleting twice is deleting once. */
  lemma WithoutIdempotent(cs: seq<Component>, name: string)
    ensures Without(Without(cs, name), name) == Without(cs, name)
  {
    var r := Without(cs, name);
    forall i | 0 <= i < |r| ensures r[i].name != name {
      assert r[i] in r;
    }
    WithoutAbsent(r, name);
  }

  /** Every entry of that name goes, not only the first: the length drops by
      the number of entries that carry it. */
  function CountNamed(cs: seq<Component>, name: string): nat {
    if cs == [] then 0 else (if cs[0].name == name then 1 else 0) + CountNamed(cs[1..], name)
  }

  lemma {:induction false} WithoutLength(cs: seq<Component>, name: string)
    ensures |Without(cs, name)| == |cs| - CountNamed(cs, name)
    decreases |cs|
  {
    if cs != [] {
      WithoutLength(cs[1..], name);
    }
  }
}
