/** The tree edit behind config.Patch: setting a dotted key in a YAML document's node tree, as a
    lens on lookups with a frame on everything else. Trees are alias-free. */
module YamlTree {
  import opened Wrappers

  datatype Kind = ScalarNode | SequenceNode | MappingNode

  /** A node without its children. `value` is the text as written, placeholders included. */
  datatype Attrs = Attrs(kind: Kind, tag: string, value: string, head: string, line: string, foot: string)

  /** A mapping's content alternates keys and values. */
  datatype Tree = Tree(attrs: Attrs, content: seq<Tree>)

  type Segments = seq<string>

  predicate Mapping(t: Tree) {
    t.attrs.kind == MappingNode
  }

  /** What the YAML parser guarantees: every key of a mapping has a value. */
  predicate WellFormed(t: Tree) {
    && (Mapping(t) ==> |t.content| % 2 == 0)
    && forall i :: 0 <= i < |t.content| ==> WellFormed(t.content[i])
  }

  const EMPTY_MAPPING := Tree(Attrs(MappingNode, "!!map", "", "", "", ""), [])

  function KeyNode(key: string): Tree {
    Tree(Attrs(ScalarNode, "!!str", key, "", "", ""), [])
  }

  /** The index of the first key `key` from index `i` on, or -1. */
  function Find(content: seq<Tree>, key: string, i: nat := 0): (k: int)
    requires i % 2 == 0
    ensures k == -1 || (i <= k && k % 2 == 0 && k + 1 < |content| && content[k].attrs.value == key)
    ensures forall j :: i <= j < (if k == -1 then |content| - 1 else k) && j % 2 == 0 ==> content[j].attrs.value != key
    decreases |content| - i
  {
    if i + 1 >= |content| then -1
    else if content[i].attrs.value == key then i
    else Find(content, key, i + 2)
  }

  /** `value` with the comments of the value it replaces. */
  function Transplant(value: Tree, prior: Tree): Tree {
    value.(attrs := value.attrs.(head := prior.attrs.head, line := prior.attrs.line, foot := prior.attrs.foot))
  }

  /** What setPath leaves behind, on success and on error. */
  datatype Edit = Edit(ok: bool, tree: Tree)

  /** setPath; `value` is None when the value cannot be encoded. */
  function SetPath(t: Tree, path: Segments, value: Option<Tree>): (e: Edit)
    requires path != []
    ensures e.tree.attrs == t.attrs
    decreases |path|
  {
    var i := Find(t.content, path[0]);
    if |path| == 1 then
      if value.None? then Edit(false, t)
      else if i >= 0 then Edit(true, t.(content := t.content[i + 1 := Transplant(value.value, t.content[i + 1])]))
      else Edit(true, t.(content := t.content + [KeyNode(path[0]), value.value]))
    else if i >= 0 then
      if !Mapping(t.content[i + 1]) then Edit(false, t)
      else
        var e := SetPath(t.content[i + 1], path[1..], value);
        Edit(e.ok, t.(content := t.content[i + 1 := e.tree]))
    else
      var e := SetPath(EMPTY_MAPPING, path[1..], value);
      Edit(e.ok, t.(content := t.content + [KeyNode(path[0]), e.tree]))
  }

  // ----- reading -----

  /** The value at a path, as a reader of the document finds it. */
  function Lookup(t: Tree, path: Segments): Option<Tree> {
    if path == [] then Some(t)
    else if !Mapping(t) then None
    else
      var i := Find(t.content, path[0]);
      if i < 0 then None else Lookup(t.content[i + 1], path[1..])
  }

  /** A mapping without its entries (which have lookups of their own); anything else whole. */
  function Face(t: Tree): Tree {
    if Mapping(t) then t.(content := []) else t
  }

  function Peek(t: Tree, path: Segments): Option<Tree> {
    match Lookup(t, path)
    case None => None
    case Some(x) => Some(Face(x))
  }

  predicate Independent(p: Segments, q: Segments) {
    !(p <= q) && !(q <= p)
  }

  // ----- one level -----

  lemma FindFrom(content: seq<Tree>, key: string, i: nat, k: nat)
    requires i % 2 == 0 && k % 2 == 0 && i <= k && k + 1 < |content| && content[k].attrs.value == key
    requires forall j :: i <= j < k && j % 2 == 0 ==> content[j].attrs.value != key
    ensures Find(content, key, i) == k
    decreases k - i
  {
  }

  lemma FindNone(content: seq<Tree>, key: string)
    requires forall j :: 0 <= j < |content| - 1 && j % 2 == 0 ==> content[j].attrs.value != key
    ensures Find(content, key) == -1
  {
  }

  /** Replacing a value moves no key. */
  lemma FindAfterReplace(content: seq<Tree>, i: nat, child: Tree, key: string)
    requires i % 2 == 0 && i + 1 < |content|
    ensures Find(content[i + 1 := child], key) == Find(content, key)
  {
    var k := Find(content, key);
    if k >= 0 { FindFrom(content[i + 1 := child], key, 0, k); } else { FindNone(content[i + 1 := child], key); }
  }

  /** Appending an entry under a new key moves no key either. */
  lemma FindAfterAppend(content: seq<Tree>, child: Tree, added: string, key: string)
    requires |content| % 2 == 0 && Find(content, added) < 0
    ensures Find(content + [KeyNode(added), child], key) == if key == added then |content| else Find(content, key)
  {
    var longer := content + [KeyNode(added), child];
    var k := Find(content, key);
    if key == added { FindFrom(longer, key, 0, |content|); }
    else if k >= 0 { FindFrom(longer, key, 0, k); }
    else { FindNone(longer, key); }
  }

  /** The child a path enters: the first value of its key, or a new mapping. */
  function Child(t: Tree, key: string): Tree {
    var i := Find(t.content, key);
    if i >= 0 then t.content[i + 1] else EMPTY_MAPPING
  }

  /** One entry of a mapping set: in place, or appended. */
  function WithChild(t: Tree, key: string, child: Tree): Tree {
    var i := Find(t.content, key);
    if i >= 0 then t.(content := t.content[i + 1 := child])
    else t.(content := t.content + [KeyNode(key), child])
  }

  lemma LookupWithChild(t: Tree, key: string, child: Tree, r: Segments)
    requires WellFormed(t) && Mapping(t) && r != []
    ensures Lookup(WithChild(t, key, child), r) == if r[0] == key then Lookup(child, r[1..]) else Lookup(t, r)
  {
    var i := Find(t.content, key);
    if i >= 0 {
      FindAfterReplace(t.content, i, child, r[0]);
    } else {
      FindAfterAppend(t.content, child, key, r[0]);
    }
  }

  lemma WithChildWellFormed(t: Tree, key: string, child: Tree)
    requires WellFormed(t) && Mapping(t) && WellFormed(child)
    ensures WellFormed(WithChild(t, key, child))
  {
  }

  // ----- whole paths -----

  /** The value that ends up at `path`: the new one, with the comments of an old one. */
  function Leaf(t: Tree, path: Segments, value: Tree): Tree {
    match Lookup(t, path)
    case None => value
    case Some(x) => Transplant(value, x)
  }

  /** What a reader finds at `r` after `path` has been set. */
  function After(t: Tree, path: Segments, value: Tree, r: Segments): Option<Tree> {
    if path <= r then Peek(Leaf(t, path, value), r[|path|..])
    else if r <= path && Peek(t, r).None? then Some(EMPTY_MAPPING)
    else Peek(t, r)
  }

  /** An existing value on the way that is not a mapping. */
  ghost predicate Blocked(t: Tree, path: Segments) {
    exists k :: 0 < k < |path| && Lookup(t, path[..k]).Some? && !Mapping(Lookup(t, path[..k]).value)
  }

  /** setPath one level at a time. */
  lemma SetPathStep(t: Tree, path: Segments, value: Option<Tree>)
    requires |path| > 1
    ensures var c := Child(t, path[0]);
            var e := SetPath(c, path[1..], value);
            SetPath(t, path, value) ==
            if Mapping(c) then Edit(e.ok, WithChild(t, path[0], e.tree)) else Edit(false, t)
  {
  }

  lemma SetPathLeaf(t: Tree, path: Segments, value: Tree)
    requires |path| == 1 && Mapping(t)
    ensures SetPath(t, path, Some(value)) == Edit(true, WithChild(t, path[0], Leaf(t, path, value)))
  {
    assert path[1..] == [];
    var i := Find(t.content, path[0]);
    if i >= 0 {
      assert Lookup(t.content[i + 1], []) == Some(t.content[i + 1]);
      assert Lookup(t, path) == Some(t.content[i + 1]);
    }
  }

  lemma {:induction false} SetKeepsWellFormed(t: Tree, path: Segments, value: Option<Tree>)
    requires WellFormed(t) && Mapping(t) && path != []
    requires value.Some? ==> WellFormed(value.value)
    ensures WellFormed(SetPath(t, path, value).tree)
    decreases |path|
  {
    if |path| == 1 {
      if value.Some? {
        SetPathLeaf(t, path, value.value);
        WithChildWellFormed(t, path[0], Leaf(t, path, value.value));
      }
    } else {
      SetPathStep(t, path, value);
      var c := Child(t, path[0]);
      if Mapping(c) {
        SetKeepsWellFormed(c, path[1..], value);
        WithChildWellFormed(t, path[0], SetPath(c, path[1..], value).tree);
      }
    }
  }

  /** Looking up below a child that may be a new mapping. */
  lemma LookupChild(t: Tree, r: Segments)
    requires Mapping(t) && r != []
    ensures Lookup(t, r) == (if Find(t.content, r[0]) >= 0 || |r| > 1 then Lookup(Child(t, r[0]), r[1..]) else None)
  {
  }

  /** The lens law, for every path `r` that is not a proper prefix of the path set: below it,
      the new value; beside it, the whole subtree that was there. */
  lemma {:induction false} LookupAfterSet(t: Tree, path: Segments, value: Tree, r: Segments)
    requires WellFormed(t) && Mapping(t) && path != [] && SetPath(t, path, Some(value)).ok
    requires path <= r || !(r <= path)
    ensures Lookup(SetPath(t, path, Some(value)).tree, r) ==
            if path <= r then Lookup(Leaf(t, path, value), r[|path|..]) else Lookup(t, r)
    decreases |path|
  {
    if |path| == 1 {
      SetPathLeaf(t, path, value);
      LookupWithChild(t, path[0], Leaf(t, path, value), r);
      assert path <= r <==> r[0] == path[0];
    } else {
      SetPathStep(t, path, Some(value));
      var c := Child(t, path[0]);
      var e := SetPath(c, path[1..], Some(value));
      LookupWithChild(t, path[0], e.tree, r);
      if r[0] == path[0] {
        PrefixTail(path, r);
        PrefixTail(r, path);
        LookupAfterSet(c, path[1..], value, r[1..]);
        LookupChild(t, path);
        if !(path <= r) { LookupChild(t, r); }
      }
    }
  }

  /** A value set anew has the comments of the one it replaces, and is otherwise what was asked for. */
  lemma {:induction false} CommentsStay(t: Tree, path: Segments, value: Tree)
    requires WellFormed(t) && Mapping(t) && path != [] && SetPath(t, path, Some(value)).ok && Lookup(t, path).Some?
    ensures var was := Lookup(t, path).value.attrs;
            var now := Lookup(SetPath(t, path, Some(value)).tree, path);
            && now.Some? && now.value.content == value.content
            && now.value.attrs == Attrs(value.attrs.kind, value.attrs.tag, value.attrs.value, was.head, was.line, was.foot)
  {
    ReadBack(t, path, value);
  }

  lemma {:induction false} ReadBack(t: Tree, path: Segments, value: Tree)
    requires WellFormed(t) && Mapping(t) && path != [] && SetPath(t, path, Some(value)).ok
    ensures Lookup(SetPath(t, path, Some(value)).tree, path) == Some(Leaf(t, path, value))
  {
    LookupAfterSet(t, path, value, path);
    LookupHere(Leaf(t, path, value), path);
  }

  lemma LookupHere(t: Tree, path: Segments)
    ensures Lookup(t, path[|path|..]) == Some(t)
  {
  }

  lemma PrefixTail(p: Segments, q: Segments)
    requires p != [] && q != [] && p[0] == q[0]
    ensures p <= q <==> p[1..] <= q[1..]
    ensures p <= q ==> q[|p|..] == q[1..][|p[1..]|..]
  {
    assert p == [p[0]] + p[1..] && q == [q[0]] + q[1..];
  }

  /** On the way to the path set, every node keeps its kind, tag, value and comments. */
  lemma {:induction false} PrefixAfterSet(t: Tree, path: Segments, value: Tree, r: Segments)
    requires WellFormed(t) && Mapping(t) && path != [] && SetPath(t, path, Some(value)).ok
    requires r < path
    ensures var was := Lookup(t, r);
            var now := Lookup(SetPath(t, path, Some(value)).tree, r);
            now.Some? && Mapping(now.value) && now.value.attrs == (if was.Some? then was.value else EMPTY_MAPPING).attrs
    decreases |path|
  {
    if r != [] {
      SetPathStep(t, path, Some(value));
      var c := Child(t, path[0]);
      var e := SetPath(c, path[1..], Some(value));
      LookupWithChild(t, path[0], e.tree, r);
      PrefixTail(r, path);
      PrefixAfterSet(c, path[1..], value, r[1..]);
      if Find(t.content, r[0]) < 0 && |r| > 1 { LookupChild(t, r); }
    }
  }

  /** What any reader finds anywhere after a successful set. */
  lemma PeekAfterSet(t: Tree, path: Segments, value: Tree, r: Segments)
    requires WellFormed(t) && Mapping(t) && path != [] && SetPath(t, path, Some(value)).ok
    ensures Peek(SetPath(t, path, Some(value)).tree, r) == After(t, path, value, r)
  {
    if path <= r || !(r <= path) { LookupAfterSet(t, path, value, r); } else { PrefixAfterSet(t, path, value, r); }
  }

  lemma BlockedStep(t: Tree, path: Segments)
    requires Mapping(t) && |path| > 1
    ensures Blocked(t, path) <==> !Mapping(Child(t, path[0])) || Blocked(Child(t, path[0]), path[1..])
  {
    var c := Child(t, path[0]);
    forall k | 0 < k < |path| ensures k > 1 || Find(t.content, path[0]) >= 0 ==> Lookup(t, path[..k]) == Lookup(c, path[1..][..k - 1]) {
      assert path[..k][1..] == path[1..][..k - 1];
      LookupChild(t, path[..k]);
    }
    if !Mapping(c) {
      assert Lookup(c, path[1..][..0]) == Some(c);
      assert Lookup(t, path[..1]) == Some(c);
    }
    if Blocked(c, path[1..]) {
      var k :| 0 < k < |path[1..]| && Lookup(c, path[1..][..k]).Some? && !Mapping(Lookup(c, path[1..][..k]).value);
      assert Lookup(t, path[..k + 1]) == Lookup(c, path[1..][..k]);
    }
    if Blocked(t, path) && Mapping(c) {
      var k :| 0 < k < |path| && Lookup(t, path[..k]).Some? && !Mapping(Lookup(t, path[..k]).value);
      assert k > 1;
      assert Lookup(t, path[..k]) == Lookup(c, path[1..][..k - 1]);
    }
  }

  /** setPath succeeds exactly when the value encodes and nothing but mappings, present or
      missing, is on the way. */
  lemma {:induction false} SetSucceedsIff(t: Tree, path: Segments, value: Option<Tree>)
    requires Mapping(t) && path != []
    ensures SetPath(t, path, value).ok <==> value.Some? && !Blocked(t, path)
    decreases |path|
  {
    if |path| > 1 {
      SetPathStep(t, path, value);
      BlockedStep(t, path);
      if Mapping(Child(t, path[0])) { SetSucceedsIff(Child(t, path[0]), path[1..], value); }
    }
  }

  /** Setting one key neither blocks nor unblocks an independent one. */
  lemma BlockedAfterSet(t: Tree, path: Segments, value: Tree, q: Segments)
    requires WellFormed(t) && Mapping(t) && path != [] && SetPath(t, path, Some(value)).ok && Independent(path, q)
    ensures Blocked(SetPath(t, path, Some(value)).tree, q) <==> Blocked(t, q)
  {
    var t' := SetPath(t, path, Some(value)).tree;
    SetSucceedsIff(t, path, Some(value));
    forall k | 0 < k < |q|
      ensures (Lookup(t', q[..k]).Some? && !Mapping(Lookup(t', q[..k]).value)) <==>
              (Lookup(t, q[..k]).Some? && !Mapping(Lookup(t, q[..k]).value))
    {
      var r := q[..k];
      assert r <= q;
      if r <= path {
        assert r == path[..k];
        PrefixAfterSet(t, path, value, r);
      } else {
        LookupAfterSet(t, path, value, r);
      }
    }
  }

  lemma BothPrefixes(p: Segments, q: Segments, r: Segments)
    requires Independent(p, q)
    ensures !(p <= r && q <= r) && !(p <= r && r <= q) && !(q <= r && r <= p)
  {
  }

  // ----- a change set -----

  datatype Change = Change(path: Segments, value: Option<Tree>)

  /** patchLocked's loop: the changes in turn, up to the first that fails. */
  function SetAll(t: Tree, changes: seq<Change>): (e: Edit)
    requires forall i :: 0 <= i < |changes| ==> changes[i].path != []
    ensures e.tree.attrs == t.attrs
    decreases |changes|
  {
    if changes == [] then Edit(true, t)
    else
      var e := SetPath(t, changes[0].path, changes[0].value);
      if e.ok then SetAll(e.tree, changes[1..]) else e
  }

  /** What the YAML encoder makes of a value, if it can. */
  predicate Encoded(value: Option<Tree>) {
    value.Some? ==> WellFormed(value.value)
  }

  ghost predicate ChangeSet(changes: seq<Change>) {
    && (forall i :: 0 <= i < |changes| ==> changes[i].path != [] && Encoded(changes[i].value))
    && (forall i, j :: 0 <= i < j < |changes| ==> Independent(changes[i].path, changes[j].path))
  }

  /** A set of independent changes succeeds exactly when each would alone. */
  lemma {:induction false} AllSucceedIff(t: Tree, changes: seq<Change>)
    requires WellFormed(t) && Mapping(t) && ChangeSet(changes)
    ensures SetAll(t, changes).ok <==>
            forall i :: 0 <= i < |changes| ==> changes[i].value.Some? && !Blocked(t, changes[i].path)
    decreases |changes|
  {
    if changes != [] {
      var c, rest := changes[0], changes[1..];
      SetSucceedsIff(t, c.path, c.value);
      if SetPath(t, c.path, c.value).ok {
        var t' := SetPath(t, c.path, c.value).tree;
        SetKeepsWellFormed(t, c.path, c.value);
        AllSucceedIff(t', rest);
        forall i | 0 <= i < |rest| ensures Blocked(t', rest[i].path) <==> Blocked(t, rest[i].path) {
          BlockedAfterSet(t, c.path, c.value.value, rest[i].path);
        }
        assert forall i :: 1 <= i < |changes| ==> changes[i] == rest[i - 1];
        assert forall i :: 0 <= i < |rest| ==> rest[i] == changes[i + 1];
      }
    }
  }

  /** After a successful change set, whatever the order of its keys: each key reads back its
      value with the old comments; whatever is independent of every key is what it was. */
  lemma {:induction false} LookupAfterAll(t: Tree, changes: seq<Change>, r: Segments)
    requires WellFormed(t) && Mapping(t) && ChangeSet(changes) && SetAll(t, changes).ok
    ensures forall i :: 0 <= i < |changes| && changes[i].path <= r ==>
              && changes[i].value.Some?
              && Lookup(SetAll(t, changes).tree, r) == Lookup(Leaf(t, changes[i].path, changes[i].value.value), r[|changes[i].path|..])
    ensures (forall i :: 0 <= i < |changes| ==> Independent(changes[i].path, r)) ==> Lookup(SetAll(t, changes).tree, r) == Lookup(t, r)
    decreases |changes|
  {
    if changes != [] {
      var c, rest := changes[0], changes[1..];
      SetSucceedsIff(t, c.path, c.value);
      var t' := SetPath(t, c.path, c.value).tree;
      SetKeepsWellFormed(t, c.path, c.value);
      assert forall i :: 0 <= i < |rest| ==> rest[i] == changes[i + 1];
      LookupAfterAll(t', rest, r);
      if c.path <= r || !(r <= c.path) { LookupAfterSet(t, c.path, c.value.value, r); }
      forall i | 0 <= i < |changes| && changes[i].path <= r
        ensures && changes[i].value.Some?
                && Lookup(SetAll(t, changes).tree, r) == Lookup(Leaf(t, changes[i].path, changes[i].value.value), r[|changes[i].path|..])
      {
        if i == 0 {
          forall j | 0 <= j < |rest| ensures Independent(rest[j].path, r) { BothPrefixes(c.path, rest[j].path, r); }
        } else {
          assert changes[i] == rest[i - 1];
          LookupAfterSet(t, c.path, c.value.value, rest[i - 1].path);
        }
      }
    }
  }

  /** Beside and above the keys set, a reader finds what was there, or a new mapping that leads
      to a key. */
  lemma {:induction false} PeekAboveAll(t: Tree, changes: seq<Change>, r: Segments)
    requires WellFormed(t) && Mapping(t) && ChangeSet(changes) && SetAll(t, changes).ok
    requires forall i :: 0 <= i < |changes| ==> !(changes[i].path <= r)
    ensures Peek(SetAll(t, changes).tree, r) ==
            if Peek(t, r).None? && exists i :: 0 <= i < |changes| && r <= changes[i].path then Some(EMPTY_MAPPING)
            else Peek(t, r)
    decreases |changes|
  {
    if changes != [] {
      var c, rest := changes[0], changes[1..];
      SetSucceedsIff(t, c.path, c.value);
      SetKeepsWellFormed(t, c.path, c.value);
      assert forall i :: 0 <= i < |rest| ==> rest[i] == changes[i + 1];
      assert forall i :: 1 <= i < |changes| ==> changes[i] == rest[i - 1];
      PeekAboveAll(SetPath(t, c.path, c.value).tree, rest, r);
      PeekAfterSet(t, c.path, c.value.value, r);
    }
  }

  ghost predicate SameChanges(cs: seq<Change>, ds: seq<Change>) {
    && (forall i :: 0 <= i < |cs| ==> cs[i] in ds)
    && (forall i :: 0 <= i < |ds| ==> ds[i] in cs)
  }

  lemma SuccessInAnyOrder(t: Tree, cs: seq<Change>, ds: seq<Change>)
    requires WellFormed(t) && Mapping(t) && ChangeSet(cs) && ChangeSet(ds) && SameChanges(cs, ds)
    ensures SetAll(t, cs).ok == SetAll(t, ds).ok
  {
    AllSucceedIff(t, cs);
    AllSucceedIff(t, ds);
  }

  lemma ReadsInAnyOrder(t: Tree, cs: seq<Change>, ds: seq<Change>, i: nat, r: Segments)
    requires WellFormed(t) && Mapping(t) && ChangeSet(cs) && ChangeSet(ds) && SameChanges(cs, ds)
    requires SetAll(t, cs).ok && SetAll(t, ds).ok && i < |cs| && cs[i].path <= r
    ensures Lookup(SetAll(t, cs).tree, r) == Lookup(SetAll(t, ds).tree, r)
  {
    var j :| 0 <= j < |ds| && ds[j] == cs[i];
    LookupAfterAll(t, cs, r);
    LookupAfterAll(t, ds, r);
  }

  /** The order in which a change set is applied makes no difference, neither to its success nor
      to any reader. */
  lemma OrderIsIrrelevant(t: Tree, cs: seq<Change>, ds: seq<Change>, r: Segments)
    requires WellFormed(t) && Mapping(t) && ChangeSet(cs) && ChangeSet(ds) && SameChanges(cs, ds)
    ensures SetAll(t, cs).ok == SetAll(t, ds).ok
    ensures SetAll(t, cs).ok ==> Peek(SetAll(t, cs).tree, r) == Peek(SetAll(t, ds).tree, r)
  {
    SuccessInAnyOrder(t, cs, ds);
    if SetAll(t, cs).ok {
      if i: nat :| i < |cs| && cs[i].path <= r {
        ReadsInAnyOrder(t, cs, ds, i, r);
      } else {
        PeekAboveAll(t, cs, r);
        PeekAboveAll(t, ds, r);
        assert (exists i :: 0 <= i < |cs| && r <= cs[i].path) <==> (exists i :: 0 <= i < |ds| && r <= ds[i].path);
      }
    }
  }

  lemma SetTwo(t: Tree, a: Change, b: Change)
    requires WellFormed(t) && Mapping(t) && a.path != [] && b.path != []
    requires Independent(a.path, b.path)
    requires SetPath(t, a.path, a.value).ok && SetPath(t, b.path, b.value).ok
    ensures var e := SetPath(SetPath(t, a.path, a.value).tree, b.path, b.value);
            e.ok && e == SetAll(t, [a, b])
  {
    SetSucceedsIff(t, a.path, a.value);
    SetSucceedsIff(t, b.path, b.value);
    BlockedAfterSet(t, a.path, a.value.value, b.path);
    var t' := SetPath(t, a.path, a.value).tree;
    SetSucceedsIff(t', b.path, b.value);
    assert [a, b][1..] == [b] && [b][1..] == [];
    assert SetAll(t', [b]) == SetPath(t', b.path, b.value);
  }

  /** Sets of independent keys commute, for every reader. */
  lemma SetsCommute(t: Tree, a: Change, b: Change, r: Segments)
    requires WellFormed(t) && Mapping(t) && a.path != [] && b.path != []
    requires Independent(a.path, b.path) && Encoded(a.value) && Encoded(b.value)
    requires SetPath(t, a.path, a.value).ok && SetPath(t, b.path, b.value).ok
    ensures var ab := SetPath(SetPath(t, a.path, a.value).tree, b.path, b.value);
            var ba := SetPath(SetPath(t, b.path, b.value).tree, a.path, a.value);
            ab.ok && ba.ok && Peek(ab.tree, r) == Peek(ba.tree, r)
  {
    assert forall i :: 0 <= i < 2 ==> [b, a][i] == [a, b][1 - i];
    SetTwo(t, a, b);
    SetTwo(t, b, a);
    OrderIsIrrelevant(t, [a, b], [b, a], r);
  }

  // ----- positions -----

  /** The node at a position: keys and values alike, reachable by a lookup or not. */
  function At(t: Tree, pos: seq<nat>): Option<Tree> {
    if pos == [] then Some(t)
    else if pos[0] < |t.content| then At(t.content[pos[0]], pos[1..])
    else None
  }

  /** Where the value at `path` is, or will be. */
  function LeafPosition(t: Tree, path: Segments): seq<nat>
    decreases |path|
  {
    if path == [] then []
    else
      var i := Find(t.content, path[0]);
      if i >= 0 then [i + 1] + LeafPosition(t.content[i + 1], path[1..])
      else [|t.content| + 1] + LeafPosition(EMPTY_MAPPING, path[1..])
  }

  /** Whether it succeeds or not, a set changes no node of the document but the value it
      replaces: every other key, value, placeholder and comment stays where it is, and whole
      subtrees that are not on the way stay as they are. */
  lemma {:induction false} NothingElseMoves(t: Tree, path: Segments, value: Option<Tree>, pos: seq<nat>)
    requires path != [] && At(t, pos).Some? && !(LeafPosition(t, path) <= pos)
    ensures var now := At(SetPath(t, path, value).tree, pos);
            && now.Some? && now.value.attrs == At(t, pos).value.attrs
            && (pos <= LeafPosition(t, path) || now == At(t, pos))
    decreases |path|
  {
    var i := Find(t.content, path[0]);
    if pos != [] && i >= 0 && pos[0] == i + 1 && |path| > 1 && Mapping(t.content[i + 1]) {
      var leaf := LeafPosition(t.content[i + 1], path[1..]);
      assert LeafPosition(t, path) == [i + 1] + leaf;
      assert pos == [i + 1] + pos[1..];
      assert leaf <= pos[1..] ==> [i + 1] + leaf <= pos;
      assert pos <= LeafPosition(t, path) <==> pos[1..] <= leaf by {
        assert LeafPosition(t, path)[1..] == leaf;
      }
      NothingElseMoves(t.content[i + 1], path[1..], value, pos[1..]);
    } else if pos != [] && |path| == 1 {
      assert path[1..] == [];
    }
  }
}
