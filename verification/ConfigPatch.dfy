/** config.Patch on the heap: yaml nodes edited in place, refining YamlTree's edit of values, and
    the atomic rewrite of the configuration file. */
module ConfigPatch {
  import opened Wrappers
  import opened YamlTree

  /** A yaml.Node. `tree` is the value it stands for, `repr` the nodes it is made of. */
  class Node {
    var attrs: Attrs
    var content: seq<Node>
    ghost var tree: Tree
    ghost var repr: set<object>

    ghost predicate Valid()
      reads this, repr
      decreases repr
    {
      && this in repr
      && tree.attrs == attrs && |tree.content| == |content|
      && (forall i :: 0 <= i < |content| ==> content[i] in repr && Owns(content[i]) && content[i].Valid() && tree.content[i] == content[i].tree)
      && (forall i, j :: 0 <= i < j < |content| ==> content[i].repr !! content[j].repr)
    }

    ghost predicate Owns(child: Node)
      reads this, child
    {
      child.repr <= repr && this !in child.repr
    }

    constructor (attrs: Attrs)
      ensures Valid() && fresh(repr) && tree == Tree(attrs, [])
    {
      this.attrs, content, tree := attrs, [], Tree(attrs, []);
      repr := {this};
    }

    /** findKey. */
    method FindKey(key: string) returns (k: int)
      requires Valid()
      ensures k == Find(tree.content, key)
    {
      var i := 0;
      while i + 1 < |content|
        invariant i % 2 == 0 && Find(tree.content, key) == Find(tree.content, key, i)
      {
        if content[i].attrs.value == key { return i; }
        i := i + 2;
      }
      return -1;
    }

    /** mapping.Content = append(mapping.Content, node). */
    method Append(node: Node)
      requires Valid() && node.Valid() && repr !! node.repr
      modifies this
      ensures Valid() && attrs == old(attrs) && content == old(content) + [node]
      ensures tree == old(tree).(content := old(tree).content + [node.tree]) && repr == old(repr) + node.repr
    {
      content := content + [node];
      tree := tree.(content := tree.content + [node.tree]);
      repr := repr + node.repr;
    }

    /** A new entry at the end, under a new key node. */
    method AppendEntry(key: string, node: Node)
      requires Valid() && node.Valid() && repr !! node.repr
      modifies this
      ensures Valid() && attrs == old(attrs) && |content| == |old(content)| + 2
      ensures tree == old(tree).(content := old(tree).content + [KeyNode(key), node.tree])
      ensures fresh(repr - old(repr) - node.repr)
    {
      var keyNode := new Node(KeyNode(key).attrs);
      Append(keyNode);
      Append(node);
    }

    /** The comments of the value this node replaces. */
    method TakeComments(prior: Attrs)
      requires Valid()
      modifies this
      ensures Valid() && repr == old(repr)
      ensures tree == old(tree).(attrs := old(tree).attrs.(head := prior.head, line := prior.line, foot := prior.foot))
    {
      attrs := attrs.(head := prior.head, line := prior.line, foot := prior.foot);
      tree := tree.(attrs := attrs);
    }

    /** mapping.Content[i] = node, or the same node after an edit of its own. */
    method Put(i: nat, node: Node)
      requires i < |content| && node.Valid()
      requires this in repr && tree.attrs == attrs && |tree.content| == |content|
      requires forall j :: 0 <= j < |content| && j != i ==>
                 content[j] in repr && Owns(content[j]) && content[j].Valid() && tree.content[j] == content[j].tree
      requires forall j, k :: 0 <= j < k < |content| && j != i && k != i ==> content[j].repr !! content[k].repr
      requires this !in node.repr && forall j :: 0 <= j < |content| && j != i ==> content[j].repr !! node.repr
      modifies this
      ensures Valid() && repr == old(repr) + node.repr
      ensures tree == old(tree).(content := old(tree).content[i := node.tree])
    {
      content := content[i := node];
      tree := tree.(content := tree.content[i := node.tree]);
      repr := repr + node.repr;
    }
  }

  /** scalarNodeFor, and the parser's node tree: a fresh tree of nodes for a value. */
  method Build(t: Tree) returns (n: Node)
    ensures n.Valid() && fresh(n.repr) && n.tree == t
    decreases t
  {
    n := new Node(t.attrs);
    for i := 0 to |t.content|
      invariant n.Valid() && fresh(n.repr)
      invariant n.tree == Tree(t.attrs, t.content[..i])
    {
      var child := Build(t.content[i]);
      n.Append(child);
    }
  }

  /** The encoder's walk over the nodes. */
  method Encode(n: Node) returns (t: Tree)
    requires n.Valid()
    ensures t == n.tree
    decreases n.repr
  {
    var content: seq<Tree> := [];
    for i := 0 to |n.content|
      invariant content == n.tree.content[..i]
    {
      var child := Encode(n.content[i]);
      content := content + [child];
    }
    t := Tree(n.attrs, content);
  }

  /** setPath's last segment. */
  method SetLeaf(mapping: Node, key: string, value: Tree)
    requires mapping.Valid()
    modifies mapping
    ensures mapping.Valid() && fresh(mapping.repr - old(mapping.repr))
    ensures Edit(true, mapping.tree) == SetPath(old(mapping.tree), [key], Some(value))
  {
    var i := mapping.FindKey(key);
    var node := Build(value);
    if i >= 0 {
      node.TakeComments(mapping.content[i + 1].attrs);
      mapping.Put(i + 1, node);
    } else {
      mapping.AppendEntry(key, node);
    }
  }

  /** The edit of the subtree in the i-th place. */
  method EnterChild(mapping: Node, i: nat, path: Segments, value: Option<Tree>) returns (ok: bool)
    requires mapping.Valid() && i < |mapping.content| && path != []
    modifies mapping.repr
    ensures mapping.Valid() && fresh(mapping.repr - old(mapping.repr))
    ensures var e := SetPath(old(mapping.tree).content[i], path, value);
            ok == e.ok && mapping.tree == old(mapping.tree).(content := old(mapping.tree).content[i := e.tree])
    decreases |path|, 1
  {
    var child := mapping.content[i];
    ok := SetNode(child, path, value);
    mapping.Put(i, child);
  }

  /** setPath: the nodes are edited in place, and stand for the edited value. */
  method SetNode(mapping: Node, path: Segments, value: Option<Tree>) returns (ok: bool)
    requires mapping.Valid() && path != []
    modifies mapping.repr
    ensures mapping.Valid() && fresh(mapping.repr - old(mapping.repr))
    ensures Edit(ok, mapping.tree) == SetPath(old(mapping.tree), path, value)
    decreases |path|, 0
  {
    if |path| == 1 {
      if value.None? { return false; }
      assert path == [path[0]];
      SetLeaf(mapping, path[0], value.value);
      return true;
    }
    SetPathStep(mapping.tree, path, value);
    var i := mapping.FindKey(path[0]);
    if i >= 0 {
      if mapping.content[i + 1].attrs.kind != MappingNode { return false; }
      ok := EnterChild(mapping, i + 1, path[1..], value);
    } else {
      ok := AddChild(mapping, path, value);
    }
  }

  /** setPath through a key that is not there yet: a new mapping is appended and entered. */
  method AddChild(mapping: Node, path: Segments, value: Option<Tree>) returns (ok: bool)
    requires mapping.Valid() && |path| > 1 && Find(mapping.tree.content, path[0]) < 0
    modifies mapping.repr
    ensures mapping.Valid() && fresh(mapping.repr - old(mapping.repr))
    ensures var e := SetPath(EMPTY_MAPPING, path[1..], value);
            ok == e.ok && mapping.tree == WithChild(old(mapping.tree), path[0], e.tree)
    decreases |path| - 1, 2
  {
    var n := |mapping.content|;
    var child := new Node(EMPTY_MAPPING.attrs);
    mapping.AppendEntry(path[0], child);
    ok := EnterChild(mapping, n + 1, path[1..], value);
  }

  // ----- the file -----

  /** strings.Split(dotted, "."). */
  function Split(dotted: string): (path: Segments)
    ensures path != []
  {
    if dotted == "" then [""]
    else
      var rest := Split(dotted[1..]);
      if dotted[0] == '.' then [""] + rest else [[dotted[0]] + rest[0]] + rest[1..]
  }

  function Joined(path: Segments): string
    requires path != []
  {
    if |path| == 1 then path[0] else path[0] + "." + Joined(path[1..])
  }

  /** Distinct dotted keys are distinct paths. */
  lemma {:induction false} SplitJoined(dotted: string)
    ensures Joined(Split(dotted)) == dotted
  {
    if dotted != "" {
      var rest := Split(dotted[1..]);
      SplitJoined(dotted[1..]);
      assert dotted == [dotted[0]] + dotted[1..];
      if dotted[0] == '.' {
        assert Split(dotted)[1..] == rest;
      } else {
        assert Split(dotted)[1..] == rest[1..];
      }
    }
  }

  /** What a file holds: nothing but white space or comments, one YAML document, or anything
      else (a torn write among them). */
  datatype Text = Blank | Yaml(root: Tree) | Other

  datatype Outcome = Saved | Error | Stop

  /** The root a patch starts from, if the file can be patched at all. */
  function Root(files: map<string, Text>, path: string): Option<Tree> {
    if path !in files || files[path].Blank? then Some(EMPTY_MAPPING)
    else if files[path].Yaml? && Mapping(files[path].root) then Some(files[path].root)
    else None
  }

  /** The change set in the order of `keys`. */
  function Changes(changes: map<string, Option<Tree>>, keys: seq<string>): (cs: seq<Change>)
    requires forall i :: 0 <= i < |keys| ==> keys[i] in changes
    ensures |cs| == |keys| && forall i :: 0 <= i < |cs| ==> cs[i] == Change(Split(keys[i]), changes[keys[i]])
  {
    seq(|keys|, i requires 0 <= i < |keys| => Change(Split(keys[i]), changes[keys[i]]))
  }

  /** Nothing but a temporary file of the agent's own, new since `before`. */
  ghost predicate OnlyTemp(before: map<string, Text>, after: map<string, Text>, path: string) {
    exists tmp :: tmp !in before && tmp != path && after - {tmp} == before
  }

  class Directory {
    var files: map<string, Text>
    /** How many operations failed, and how often the process was stopped. */
    ghost var faults: nat

    method Try() returns (ok: bool)
      modifies this`faults
      ensures faults == if ok then old(faults) else old(faults) + 1
    {
      ok := *;
      if !ok { faults := faults + 1; }
    }

    /** writeFileAtomic: the new text appears whole or not at all, and does appear if nothing
        fails. */
    method WriteFileAtomic(path: string, text: Text) returns (outcome: Outcome)
      modifies this
      ensures old(faults) <= faults && (faults == old(faults) ==> outcome.Saved?)
      ensures outcome.Saved? ==> files == old(files)[path := text]
      ensures outcome.Error? ==> files == old(files) || OnlyTemp(old(files), files, path)
      ensures outcome.Stop? ==>
                files == old(files) || OnlyTemp(old(files), files, path) || files == old(files)[path := text]
    {
      var created := Try();
      if !created { return Error; }
      var tmp: string :| tmp !in files && tmp != path by { FreshName(files.Keys + {path}); }
      files := files[tmp := Other];
      assert files - {tmp} == old(files);
      var goesOn := Try();
      if !goesOn { return Stop; }
      var written := Try();
      if written {
        // The write, chmod, fsync and close all succeeded.
        files := files[tmp := text];
        assert files - {tmp} == old(files);
        goesOn := Try();
        if !goesOn { return Stop; }
        var renamed := Try();
        if renamed {
          files := files[path := text] - {tmp};
          assert files == old(files)[path := text];
          goesOn := Try();
          return if goesOn then Saved else Stop;
        }
      }
      var removed := Try();
      if removed { files := files - {tmp}; }
      assert files - {tmp} == old(files);
      return Error;
    }

    /** Patch: the keys in any order (the source sorts them), with a check of the document as read.
        If nothing fails, it saves exactly when the file has a mapping at its root, the check passes
        and every change can be made. */
    method Patch(path: string, changes: map<string, Option<Tree>>, keys: seq<string>, check: Tree -> bool) returns (outcome: Outcome)
      requires forall i :: 0 <= i < |keys| ==> keys[i] in changes
      modifies this
      ensures old(faults) <= faults
      ensures faults == old(faults) ==>
                (outcome.Saved? <==>
                   var root := Root(old(files), path);
                   root.Some? && check(root.value) && SetAll(root.value, Changes(changes, keys)).ok)
      ensures faults == old(faults) && !outcome.Saved? ==> outcome.Error? && files == old(files)
      ensures outcome.Saved? ==>
                && Root(old(files), path).Some? && check(Root(old(files), path).value)
                && SetAll(Root(old(files), path).value, Changes(changes, keys)).ok
                && files == old(files)[path := Yaml(SetAll(Root(old(files), path).value, Changes(changes, keys)).tree)]
      ensures outcome.Error? ==> files == old(files) || OnlyTemp(old(files), files, path)
      ensures Root(old(files), path).None? || !check(Root(old(files), path).value)
              || !SetAll(Root(old(files), path).value, Changes(changes, keys)).ok ==>
                outcome != Saved && files == old(files)
      ensures outcome.Stop? ==>
                || files == old(files) || OnlyTemp(old(files), files, path)
                || files == old(files)[path := Yaml(SetAll(Root(old(files), path).value, Changes(changes, keys)).tree)]
    {
      var readable := Try();
      var start := Root(files, path);
      if !readable || start.None? { return Error; }
      var root := Build(start.value);
      if !check(start.value) { return Error; }
      ghost var cs := Changes(changes, keys);
      for i := 0 to |keys|
        invariant root.Valid() && fresh(root.repr) && files == old(files) && faults == old(faults)
        invariant SetAll(root.tree, cs[i..]) == SetAll(start.value, cs)
      {
        var ok := SetNode(root, Split(keys[i]), changes[keys[i]]);
        assert cs[i..][0] == cs[i] && cs[i..][1..] == cs[i + 1..];
        if !ok { return Error; }
      }
      var doc := Encode(root);
      outcome := WriteFileAtomic(path, Yaml(doc));
    }
  }

  /** There is always another name. */
  lemma {:induction false} FreshName(taken: set<string>)
    ensures exists name: string :: name !in taken
  {
    var n := Longest(taken);
    var name := seq(n + 1, _ => 'x');
    assert |name| > n;
    assert name !in taken;
  }

  lemma {:induction false} Longest(names: set<string>) returns (n: nat)
    ensures forall s :: s in names ==> |s| <= n
    decreases |names|
  {
    n := 0;
    if s :| s in names {
      n := Longest(names - {s});
      n := if |s| > n then |s| else n;
    }
  }
}
