/** The export index both managers regenerate (`updateIndex`, pkg.elk.wtf/ecm/ECM.jsx:150-195
    and pkg.elk.wtf/ecm/ECM/ECM.jsx:59-103): a depth-first walk over the records that
    collects each name the first time it is met, and the text built from those names.
    The walk itself is written as methods in each manager's module; this module holds
    what those methods compute and what is proved about it. */
module Exports {
  import opened Base
  import opened Model

  // ---------------------------------------------------------------------------
  // The walk
  // ---------------------------------------------------------------------------

  /** `addExports(c)` for a present record `c`, with `acc` the names collected so far:
      a name already collected stops the walk (its subtree is not entered); otherwise
      the name is appended and the present requirements are walked in order. */
  function Visit(c: Component, acc: seq<string>): seq<string>
    decreases c, 1, 0
  {
    if c.name in acc then acc else VisitFrom(c, 0, acc + [c.name])
  }

  /** The loop over `c.requires` from position `i`, skipping null entries. */
  function VisitFrom(c: Component, i: nat, acc: seq<string>): seq<string>
    requires i <= |Children(c)|
    decreases c, 0, |Children(c)| - i
  {
    if i == |Children(c)| then acc
    else
      var r := Children(c)[i];
      VisitFrom(c, i + 1, if r.Some? then Visit(r.value, acc) else acc)
  }

  /** The top-level loop: each present entry in order. */
  function VisitList(rs: seq<Option<Component>>, acc: seq<string>): seq<string> {
    if rs == [] then acc
    else VisitList(rs[1..], if rs[0].Some? then Visit(rs[0].value, acc) else acc)
  }

  /** The names `updateIndex` collects from a list of records. */
  function Flatten(rs: seq<Option<Component>>): seq<string> {
    VisitList(rs, [])
  }

  // ---------------------------------------------------------------------------
  // The reference: plain preorder, repeats included
  // ---------------------------------------------------------------------------

  /** Every name of the tree under `c` in depth-first preorder, repeats included. */
  function Pre(c: Component): seq<string>
    decreases c, 1, 0
  {
    [c.name] + PreFrom(c, 0)
  }

  function PreFrom(c: Component, i: nat): seq<string>
    requires i <= |Children(c)|
    decreases c, 0, |Children(c)| - i
  {
    if i == |Children(c)| then []
    else
      var r := Children(c)[i];
      (if r.Some? then Pre(r.value) else []) + PreFrom(c, i + 1)
  }

  function PreList(rs: seq<Option<Component>>): seq<string> {
    if rs == [] then []
    else (if rs[0].Some? then Pre(rs[0].value) else []) + PreList(rs[1..])
  }

  // ---------------------------------------------------------------------------
  // What the walk guarantees
  // ---------------------------------------------------------------------------

  /** The walk only appends (`acc` stays a prefix), never collects a name twice,
      and only collects names that occur in the tree. */
  predicate Extends(acc: seq<string>, r: seq<string>, names: seq<string>) {
    && acc <= r
    && (NoDup(acc) ==> NoDup(r))
    && (forall x :: x in r ==> x in acc || x in names)
  }

  lemma ExtendsTrans(a: seq<string>, b: seq<string>, c: seq<string>, n1: seq<string>, n2: seq<string>)
    requires Extends(a, b, n1) && Extends(b, c, n2)
    ensures Extends(a, c, n1 + n2)
  {
  }

  lemma {:induction false} VisitExtends(c: Component, acc: seq<string>)
    ensures Extends(acc, Visit(c, acc), Pre(c))
    ensures c.name in Visit(c, acc)
    decreases c, 1, 0
  {
    if c.name !in acc {
      var acc' := acc + [c.name];
      VisitFromExtends(c, 0, acc');
      assert NoDup(acc) ==> NoDup(acc') by {
        if NoDup(acc) {
          forall i, j | 0 <= i < j < |acc'| ensures acc'[i] != acc'[j] {
            if j == |acc| { assert acc'[i] in acc; }
          }
        }
      }
      assert Extends(acc, acc', [c.name]);
      ExtendsTrans(acc, acc', Visit(c, acc), [c.name], PreFrom(c, 0));
      assert acc'[|acc|] == c.name;
    }
  }

  lemma {:induction false} VisitFromExtends(c: Component, i: nat, acc: seq<string>)
    requires i <= |Children(c)|
    ensures Extends(acc, VisitFrom(c, i, acc), PreFrom(c, i))
    decreases c, 0, |Children(c)| - i
  {
    if i < |Children(c)| {
      var r := Children(c)[i];
      var acc' := if r.Some? then Visit(r.value, acc) else acc;
      if r.Some? {
        VisitExtends(r.value, acc);
      }
      VisitFromExtends(c, i + 1, acc');
      ExtendsTrans(acc, acc', VisitFrom(c, i, acc),
                   if r.Some? then Pre(r.value) else [], PreFrom(c, i + 1));
    }
  }

  lemma {:induction false} VisitListExtends(rs: seq<Option<Component>>, acc: seq<string>)
    ensures Extends(acc, VisitList(rs, acc), PreList(rs))
    ensures forall i :: 0 <= i < |rs| && rs[i].Some? ==> rs[i].value.name in VisitList(rs, acc)
    decreases |rs|
  {
    if rs != [] {
      var acc' := if rs[0].Some? then Visit(rs[0].value, acc) else acc;
      if rs[0].Some? {
        VisitExtends(rs[0].value, acc);
      }
      VisitListExtends(rs[1..], acc');
      ExtendsTrans(acc, acc', VisitList(rs, acc),
                   if rs[0].Some? then Pre(rs[0].value) else [], PreList(rs[1..]));
      forall i | 0 <= i < |rs| && rs[i].Some?
        ensures rs[i].value.name in VisitList(rs, acc)
      {
        if i > 0 {
          assert rs[1..][i - 1] == rs[i];
        }
      }
    }
  }

  /** The export list has no repeated name, every name in it occurs in the
      records, and every present top-level record's name is in it. */
  lemma FlattenSound(rs: seq<Option<Component>>)
    ensures NoDup(Flatten(rs))
    ensures forall x :: x in Flatten(rs) ==> x in PreList(rs)
    ensures forall i :: 0 <= i < |rs| && rs[i].Some? ==> rs[i].value.name in Flatten(rs)
  {
    VisitListExtends(rs, []);
  }

  /** The walk appends to `acc` a subsequence of the subtree's preorder: names are
      only ever skipped, never reordered. */
  lemma {:induction false} VisitSubseq(c: Component, acc: seq<string>) returns (s: seq<string>)
    ensures Visit(c, acc) == acc + s && Subseq(s, Pre(c))
    decreases c, 1, 0
  {
    if c.name in acc {
      s := [];
      SubseqEmpty(Pre(c));
      assert acc + [] == acc;
    } else {
      var t := VisitFromSubseq(c, 0, acc + [c.name]);
      s := [c.name] + t;
      SubseqRefl([c.name]);
      SubseqConcat([c.name], [c.name], t, PreFrom(c, 0));
    }
  }

  lemma {:induction false} VisitFromSubseq(c: Component, i: nat, acc: seq<string>) returns (s: seq<string>)
    requires i <= |Children(c)|
    ensures VisitFrom(c, i, acc) == acc + s && Subseq(s, PreFrom(c, i))
    decreases c, 0, |Children(c)| - i
  {
    if i == |Children(c)| {
      s := [];
      SubseqEmpty(PreFrom(c, i));
      assert acc + [] == acc;
    } else {
      var r := Children(c)[i];
      var s1: seq<string> := [];
      if r.Some? {
        s1 := VisitSubseq(r.value, acc);
      } else {
        SubseqEmpty<string>([]);
        assert acc + [] == acc;
      }
      var s2 := VisitFromSubseq(c, i + 1, acc + s1);
      s := s1 + s2;
      SubseqConcat(s1, if r.Some? then Pre(r.value) else [], s2, PreFrom(c, i + 1));
      assert acc + s1 + s2 == acc + s;
    }
  }

  lemma {:induction false} VisitListSubseq(rs: seq<Option<Component>>, acc: seq<string>) returns (s: seq<string>)
    ensures VisitList(rs, acc) == acc + s && Subseq(s, PreList(rs))
    decreases |rs|
  {
    if rs == [] {
      s := [];
      SubseqEmpty<string>([]);
      assert acc + [] == acc;
    } else {
      var s1: seq<string> := [];
      if rs[0].Some? {
        s1 := VisitSubseq(rs[0].value, acc);
      } else {
        SubseqEmpty<string>([]);
        assert acc + [] == acc;
      }
      var s2 := VisitListSubseq(rs[1..], acc + s1);
      s := s1 + s2;
      SubseqConcat(s1, if rs[0].Some? then Pre(rs[0].value) else [], s2, PreList(rs[1..]));
      assert acc + s1 + s2 == acc + s;
    }
  }

  /** For every list of records, repeated names included, the export list keeps
      the depth-first preorder: it is a subsequence of the preorder (names are left
      out, never reordered) and holds no name twice. */
  lemma FlattenPreorder(rs: seq<Option<Component>>)
    ensures Subseq(Flatten(rs), PreList(rs))
    ensures NoDup(Flatten(rs))
  {
    var s := VisitListSubseq(rs, []);
    assert [] + s == s;
    FlattenSound(rs);
  }

  /** When no name repeats anywhere in the records, the export list is exactly
      their depth-first preorder: top-level entries in order, each followed by
      its requirements in order. */
  lemma {:induction false} VisitDistinct(c: Component, acc: seq<string>)
    requires NoDup(acc + Pre(c))
    ensures Visit(c, acc) == acc + Pre(c)
    decreases c, 1, 0
  {
    assert (acc + Pre(c))[|acc|] == c.name;
    assert c.name !in acc by {
      forall k | 0 <= k < |acc| ensures acc[k] != c.name {
        assert (acc + Pre(c))[k] == acc[k];
      }
    }
    assert acc + Pre(c) == (acc + [c.name]) + PreFrom(c, 0);
    VisitFromDistinct(c, 0, acc + [c.name]);
  }

  lemma {:induction false} VisitFromDistinct(c: Component, i: nat, acc: seq<string>)
    requires i <= |Children(c)|
    requires NoDup(acc + PreFrom(c, i))
    ensures VisitFrom(c, i, acc) == acc + PreFrom(c, i)
    decreases c, 0, |Children(c)| - i
  {
    if i < |Children(c)| {
      var r := Children(c)[i];
      var head := if r.Some? then Pre(r.value) else [];
      assert acc + PreFrom(c, i) == (acc + head) + PreFrom(c, i + 1);
      NoDupPrefix(acc + head, PreFrom(c, i + 1));
      var acc' := if r.Some? then Visit(r.value, acc) else acc;
      if r.Some? {
        VisitDistinct(r.value, acc);
      }
      assert acc' == acc + head;
      VisitFromDistinct(c, i + 1, acc + head);
      assert VisitFrom(c, i, acc) == VisitFrom(c, i + 1, acc');
    }
  }

  lemma {:induction false} VisitListDistinct(rs: seq<Option<Component>>, acc: seq<string>)
    requires NoDup(acc + PreList(rs))
    ensures VisitList(rs, acc) == acc + PreList(rs)
    decreases |rs|
  {
    if rs != [] {
      var head := if rs[0].Some? then Pre(rs[0].value) else [];
      assert acc + PreList(rs) == (acc + head) + PreList(rs[1..]);
      NoDupPrefix(acc + head, PreList(rs[1..]));
      var acc' := if rs[0].Some? then Visit(rs[0].value, acc) else acc;
      if rs[0].Some? {
        VisitDistinct(rs[0].value, acc);
      }
      assert acc' == acc + head;
      VisitListDistinct(rs[1..], acc + head);
      assert VisitList(rs, acc) == VisitList(rs[1..], acc');
    }
  }

  lemma FlattenDistinct(rs: seq<Option<Component>>)
    requires NoDup(PreList(rs))
    ensures Flatten(rs) == PreList(rs)
  {
    assert [] + PreList(rs) == PreList(rs);
    VisitListDistinct(rs, []);
  }

  lemma NoDupPrefix(a: seq<string>, b: seq<string>)
    requires NoDup(a + b)
    ensures NoDup(a)
  {
    forall i, j | 0 <= i < j < |a| ensures a[i] != a[j] {
      assert (a + b)[i] == a[i] && (a + b)[j] == a[j];
    }
  }

  // ---------------------------------------------------------------------------
  // Repeated names: first occurrence wins
  // ---------------------------------------------------------------------------

  /** The reference for repeated names: `seen` followed by each name of `xs` that
      is not already there, at its first occurrence. */
  function DedupFrom(seen: seq<string>, xs: seq<string>): seq<string>
    decreases |xs|
  {
    if xs == [] then seen
    else DedupFrom(if xs[0] in seen then seen else seen + [xs[0]], xs[1..])
  }

  lemma {:induction false} DedupAppend(seen: seq<string>, xs: seq<string>, ys: seq<string>)
    ensures DedupFrom(seen, xs + ys) == DedupFrom(DedupFrom(seen, xs), ys)
    decreases |xs|
  {
    if xs == [] {
      assert xs + ys == ys;
    } else {
      assert (xs + ys)[0] == xs[0] && (xs + ys)[1..] == xs[1..] + ys;
      DedupAppend(if xs[0] in seen then seen else seen + [xs[0]], xs[1..], ys);
    }
  }

  /** Names already seen add nothing. */
  lemma {:induction false} DedupSeen(seen: seq<string>, xs: seq<string>)
    requires forall x :: x in xs ==> x in seen
    ensures DedupFrom(seen, xs) == seen
    decreases |xs|
  {
    if xs != [] {
      assert xs[0] in xs;
      forall x | x in xs[1..] ensures x in seen {
        assert x in xs;
      }
      DedupSeen(seen, xs[1..]);
    }
  }

  /** The result holds every name of `seen` and of `xs`. */
  lemma {:induction false} DedupCovers(seen: seq<string>, xs: seq<string>)
    ensures forall x :: x in seen || x in xs ==> x in DedupFrom(seen, xs)
    decreases |xs|
  {
    if xs != [] {
      var seen' := if xs[0] in seen then seen else seen + [xs[0]];
      DedupCovers(seen', xs[1..]);
      forall x | x in seen || x in xs ensures x in DedupFrom(seen, xs) {
        if x in xs && x != xs[0] {
          assert x in xs[1..];
        }
      }
    }
  }

  /** Every record named `n` anywhere in the tree under `c` has the preorder
      `reg[n]`: records of the same name carry the same requirement tree, as when
      each was installed from the same descriptor. */
  predicate Consistent(c: Component, reg: map<string, seq<string>>)
    decreases c, 1, 0
  {
    c.name in reg && reg[c.name] == Pre(c) && ConsistentFrom(c, 0, reg)
  }

  predicate ConsistentFrom(c: Component, i: nat, reg: map<string, seq<string>>)
    requires i <= |Children(c)|
    decreases c, 0, |Children(c)| - i
  {
    i == |Children(c)|
    || ((Children(c)[i].Some? ==> Consistent(Children(c)[i].value, reg)) && ConsistentFrom(c, i + 1, reg))
  }

  predicate ConsistentList(rs: seq<Option<Component>>, reg: map<string, seq<string>>) {
    forall i :: 0 <= i < |rs| && rs[i].Some? ==> Consistent(rs[i].value, reg)
  }

  /** A name met under `c` carries a preorder no longer than `c`'s own. */
  lemma {:induction false} PreBound(c: Component, reg: map<string, seq<string>>, x: string)
    requires Consistent(c, reg) && x in Pre(c)
    ensures x in reg && |reg[x]| <= |Pre(c)|
    decreases c, 1, 0
  {
    if x != c.name {
      assert x in PreFrom(c, 0);
      PreFromBound(c, 0, reg, x);
    }
  }

  lemma {:induction false} PreFromBound(c: Component, i: nat, reg: map<string, seq<string>>, x: string)
    requires i <= |Children(c)|
    requires ConsistentFrom(c, i, reg) && x in PreFrom(c, i)
    ensures x in reg && |reg[x]| <= |PreFrom(c, i)|
    decreases c, 0, |Children(c)| - i
  {
    var r := Children(c)[i];
    var head := if r.Some? then Pre(r.value) else [];
    assert PreFrom(c, i) == head + PreFrom(c, i + 1);
    if x in head {
      PreBound(r.value, reg, x);
    } else {
      PreFromBound(c, i + 1, reg, x);
    }
  }

  /** So in a consistent tree no record lists its own name beneath it. */
  lemma NotBelowItself(c: Component, reg: map<string, seq<string>>)
    requires Consistent(c, reg)
    ensures c.name !in PreFrom(c, 0)
  {
    if c.name in PreFrom(c, 0) {
      PreFromBound(c, 0, reg, c.name);
    }
  }

  /** Every collected name outside `pend` (the records whose walk is still in
      progress) has its whole tree collected. */
  predicate ClosedExcept(acc: seq<string>, pend: set<string>, reg: map<string, seq<string>>) {
    forall x :: x in acc && x !in pend && x in reg ==> (forall y :: y in reg[x] ==> y in acc)
  }

  lemma {:induction false} VisitDedup(c: Component, acc: seq<string>, pend: set<string>, reg: map<string, seq<string>>)
    requires Consistent(c, reg) && ClosedExcept(acc, pend, reg)
    requires forall x :: x in pend ==> x !in Pre(c)
    ensures Visit(c, acc) == DedupFrom(acc, Pre(c))
    ensures ClosedExcept(Visit(c, acc), pend, reg)
    decreases c, 1, 0
  {
    assert Pre(c)[0] == c.name && Pre(c)[1..] == PreFrom(c, 0);
    if c.name in acc {
      assert c.name !in pend;
      DedupSeen(acc, Pre(c));
    } else {
      var acc' := acc + [c.name];
      var pend' := pend + {c.name};
      NotBelowItself(c, reg);
      forall x | x in pend' ensures x !in PreFrom(c, 0) {
        if x != c.name {
          assert x !in Pre(c);
        }
      }
      VisitFromDedup(c, 0, acc', pend', reg);
      DedupCovers(acc, Pre(c));
    }
  }

  lemma {:induction false} VisitFromDedup(c: Component, i: nat, acc: seq<string>, pend: set<string>,
                                          reg: map<string, seq<string>>)
    requires i <= |Children(c)|
    requires ConsistentFrom(c, i, reg) && ClosedExcept(acc, pend, reg)
    requires forall x :: x in pend ==> x !in PreFrom(c, i)
    ensures VisitFrom(c, i, acc) == DedupFrom(acc, PreFrom(c, i))
    ensures ClosedExcept(VisitFrom(c, i, acc), pend, reg)
    decreases c, 0, |Children(c)| - i
  {
    if i < |Children(c)| {
      var r := Children(c)[i];
      var head := if r.Some? then Pre(r.value) else [];
      assert PreFrom(c, i) == head + PreFrom(c, i + 1);
      var acc' := if r.Some? then Visit(r.value, acc) else acc;
      if r.Some? {
        VisitDedup(r.value, acc, pend, reg);
      }
      assert acc' == DedupFrom(acc, head);
      VisitFromDedup(c, i + 1, acc', pend, reg);
      DedupAppend(acc, head, PreFrom(c, i + 1));
    }
  }

  lemma {:induction false} VisitListDedup(rs: seq<Option<Component>>, acc: seq<string>, reg: map<string, seq<string>>)
    requires ConsistentList(rs, reg) && ClosedExcept(acc, {}, reg)
    ensures VisitList(rs, acc) == DedupFrom(acc, PreList(rs))
    ensures ClosedExcept(VisitList(rs, acc), {}, reg)
    decreases |rs|
  {
    if rs != [] {
      var head := if rs[0].Some? then Pre(rs[0].value) else [];
      var acc' := if rs[0].Some? then Visit(rs[0].value, acc) else acc;
      if rs[0].Some? {
        VisitDedup(rs[0].value, acc, {}, reg);
      }
      assert acc' == DedupFrom(acc, head);
      assert ConsistentList(rs[1..], reg) by {
        forall i | 0 <= i < |rs[1..]| && rs[1..][i].Some? ensures Consistent(rs[1..][i].value, reg) {
          assert rs[1..][i] == rs[i + 1];
        }
      }
      VisitListDedup(rs[1..], acc', reg);
      DedupAppend(acc, head, PreList(rs[1..]));
    }
  }

  /** When records of the same name carry the same requirement tree, the export
      list is the depth-first preorder with every repeated name kept only at its
      first occurrence. */
  lemma FlattenFirstOccurrence(rs: seq<Option<Component>>, reg: map<string, seq<string>>)
    requires ConsistentList(rs, reg)
    ensures Flatten(rs) == DedupFrom([], PreList(rs))
  {
    VisitListDedup(rs, [], reg);
  }

  // ---------------------------------------------------------------------------
  // Examples
  // ---------------------------------------------------------------------------

  function Leaf(name: string): Component {
    Component(name, "1.0.0", "", "", "", false, Absent, false)
  }

  function Node(name: string, children: seq<Component>): Component {
    Component(name, "1.0.0", "", "", "", false, Listed(Present(children)), false)
  }

  /** [A[B, C], D[B]] lists A, B, C, D: B once, at its first position. */
  lemma SharedRequirementExample()
    ensures Flatten([Some(Node("A", [Leaf("B"), Leaf("C")])), Some(Node("D", [Leaf("B")]))])
            == ["A", "B", "C", "D"]
  {
    var a := Node("A", [Leaf("B"), Leaf("C")]);
    var d := Node("D", [Leaf("B")]);
    assert Children(a) == [Some(Leaf("B")), Some(Leaf("C"))];
    assert Children(d) == [Some(Leaf("B"))];
    assert Visit(Leaf("B"), ["A"]) == ["A", "B"];
    assert Visit(Leaf("C"), ["A", "B"]) == ["A", "B", "C"];
    assert VisitFrom(a, 2, ["A", "B", "C"]) == ["A", "B", "C"];
    assert VisitFrom(a, 1, ["A", "B"]) == ["A", "B", "C"];
    assert VisitFrom(a, 0, ["A"]) == ["A", "B", "C"];
    assert Visit(a, []) == ["A", "B", "C"];
    assert Visit(Leaf("B"), ["A", "B", "C", "D"]) == ["A", "B", "C", "D"];
    assert VisitFrom(d, 1, ["A", "B", "C", "D"]) == ["A", "B", "C", "D"];
    assert VisitFrom(d, 0, ["A", "B", "C", "D"]) == ["A", "B", "C", "D"];
    assert Visit(d, ["A", "B", "C"]) == ["A", "B", "C", "D"];
  }

  /** [A[B], X[A[C]]] lists A, B, X: the second A is not entered, so C, which occurs
      only beneath it, is never exported. */
  lemma RepeatedSubtreeSkippedExample()
    ensures Flatten([Some(Node("A", [Leaf("B")])), Some(Node("X", [Node("A", [Leaf("C")])]))])
            == ["A", "B", "X"]
  {
    var a := Node("A", [Leaf("B")]);
    var a2 := Node("A", [Leaf("C")]);
    var x := Node("X", [a2]);
    assert Children(a) == [Some(Leaf("B"))];
    assert Children(x) == [Some(a2)];
    assert Visit(Leaf("B"), ["A"]) == ["A", "B"];
    assert VisitFrom(a, 1, ["A", "B"]) == ["A", "B"];
    assert VisitFrom(a, 0, ["A"]) == ["A", "B"];
    assert Visit(a, []) == ["A", "B"];
    assert "A" in ["A", "B", "X"];
    assert Visit(a2, ["A", "B", "X"]) == ["A", "B", "X"];
    assert VisitFrom(x, 1, ["A", "B", "X"]) == ["A", "B", "X"];
    assert VisitFrom(x, 0, ["A", "B", "X"]) == ["A", "B", "X"];
    assert ["A", "B"] + ["X"] == ["A", "B", "X"];
    assert Visit(x, ["A", "B"]) == ["A", "B", "X"];
  }

  // ---------------------------------------------------------------------------
  // The index text
  // ---------------------------------------------------------------------------

  /** `export * from "./${name}";` */
  function ExportLine(name: string): string {
    "export * from \"./" + name + "\";"
  }

  function ExportLines(names: seq<string>): (lines: seq<string>)
    ensures |lines| == |names|
    ensures forall i :: 0 <= i < |names| ==> lines[i] == ExportLine(names[i])
  {
    seq(|names|, i requires 0 <= i < |names| => ExportLine(names[i]))
  }

  /** `exportStatements.join("\n")` */
  function IndexText(names: seq<string>): string {
    Join(ExportLines(names), '\n')
  }

  /** The index text is one export line per collected name, in collection order:
      cut at its line breaks it gives back exactly those lines (names never hold
      a line break), and with nothing collected it is empty. */
  lemma IndexTextLines(names: seq<string>)
    requires forall i :: 0 <= i < |names| ==> '\n' !in names[i]
    ensures names == [] ==> IndexText(names) == ""
    ensures names != [] ==> Split(IndexText(names), '\n') == ExportLines(names)
  {
    if names != [] {
      var lines := ExportLines(names);
      forall i | 0 <= i < |lines| ensures '\n' !in lines[i] {
        assert lines[i] == "export * from \"./" + names[i] + "\";";
      }
      JoinSplit(lines, '\n');
    }
  }
}
