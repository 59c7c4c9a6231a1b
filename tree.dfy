/**
 * Namespace trees (src/tree.ts): a blueprint maps names to leaves (a field key)
 * or to nested namespaces; `digTreeBlueprintNamespace` makes a dotted path
 * exist as namespaces, and `buildTree` fills a blueprint with values.
 *
 * The source keeps namespaces in mutable `Map`s and changes them in place;
 * here a namespace is a value and digging returns the updated root.
 */
module Tree {
  import opened Wrappers

  /** `TreeBlueprintNode`. */
  datatype BlueprintNode = Leaf(key: string) | Ns(ns: map<string, BlueprintNode>)

  /** `TreeBlueprintNamespace`. */
  type Blueprint = map<string, BlueprintNode>

  /** `TreeNode<T>`. */
  datatype TreeNode<T> = TreeLeaf(value: T) | TreeNs(ns: map<string, TreeNode<T>>)

  // ---------------------------------------------------------------------------
  // Looking things up by path

  /** The node reached from `n` by following the names in `path`, if any. */
  function NodeAt(n: BlueprintNode, path: seq<string>): Option<BlueprintNode>
    decreases |path|
  {
    if path == [] then Some(n)
    else if n.Ns? && path[0] in n.ns then NodeAt(n.ns[path[0]], path[1..])
    else None
  }

  /** Whether every name on `path` leads through a namespace. */
  predicate IsNamespacePath(ns: Blueprint, path: seq<string>)
  {
    var n := NodeAt(Ns(ns), path);
    n.Some? && n.value.Ns?
  }

  /** The keys of every leaf anywhere below `n`. */
  function LeafKeys(n: BlueprintNode): set<string>
  {
    match n
    case Leaf(key) => {key}
    case Ns(ns) => set name, key | name in ns && key in LeafKeys(ns[name]) :: key
  }

  // ---------------------------------------------------------------------------
  // digTreeBlueprintNamespace

  /** The namespace `dig` continues in: the existing namespace under `head`, a
    * new namespace holding a leaf that was in the way under the key `""`, or a
    * new empty namespace. It holds exactly the leaves that were under `head`. */
  function ChildNamespace(ns: Blueprint, head: string): (child: Blueprint)
    ensures LeafKeys(Ns(child)) == if head in ns then LeafKeys(ns[head]) else {}
    ensures head in ns && ns[head].Ns? ==> child == ns[head].ns
    ensures head in ns && ns[head].Leaf? ==> child == map["" := ns[head]]
    ensures head !in ns ==> child == map[]
  {
    if head !in ns then map[]
    else
      match ns[head]
      case Ns(child) => child
      case Leaf(_) =>
        var child := map["" := ns[head]];
        assert LeafKeys(Ns(child)) == LeafKeys(ns[head]) by {
          assert forall key :: key in LeafKeys(Ns(child)) <==> key in LeafKeys(child[""]);
        }
        child
  }

  /** `digTreeBlueprintNamespace(ns, path)`, returning `ns` as the in-place
    * updates leave it. Only the entry for the first name changes; everything
    * else is kept as it was. */
  function Dig(ns: Blueprint, path: seq<string>): (r: Blueprint)
    ensures IsNamespacePath(r, path)
    ensures path == [] ==> r == ns
    ensures path != [] ==> r.Keys == ns.Keys + {path[0]} && r[path[0]].Ns?
    ensures path != [] ==> forall name :: name in ns && name != path[0] ==> r[name] == ns[name]
    decreases |path|
  {
    if path == [] then ns
    else ns[path[0] := Ns(Dig(ChildNamespace(ns, path[0]), path[1..]))]
  }

  /** Digging a path that already leads through namespaces reuses them and
    * changes nothing; in particular digging twice is digging once. */
  lemma {:induction false} DigExistingPath(ns: Blueprint, path: seq<string>)
    requires IsNamespacePath(ns, path)
    ensures Dig(ns, path) == ns
    decreases |path|
  {
    if path != [] {
      assert NodeAt(Ns(ns), path) == NodeAt(ns[path[0]], path[1..]);
      assert ns[path[0]].Ns?;
      var child := ns[path[0]].ns;
      DigExistingPath(child, path[1..]);
      assert ns[path[0] := Ns(child)] == ns;
    }
  }

  lemma DigIdempotent(ns: Blueprint, path: seq<string>)
    ensures Dig(Dig(ns, path), path) == Dig(ns, path)
  {
    DigExistingPath(Dig(ns, path), path);
  }

  /** A name missing from the path is created as a fresh namespace, and the
    * namespace that digging leads to is then a new empty one. */
  lemma {:induction false} DigCreatesMissing(ns: Blueprint, path: seq<string>)
    requires path != [] && path[0] !in ns
    ensures Dig(ns, path)[path[0]] == Ns(Dig(map[], path[1..]))
    ensures NodeAt(Ns(Dig(ns, path)), path) == Some(Ns(map[]))
  {
    DigEmpty(path[1..]);
  }

  /** Digging into an empty namespace builds a chain of fresh namespaces that
    * ends in an empty one. */
  lemma {:induction false} DigEmpty(path: seq<string>)
    ensures NodeAt(Ns(Dig(map[], path)), path) == Some(Ns(map[]))
    decreases |path|
  {
    if path != [] {
      DigEmpty(path[1..]);
    }
  }

  /** A leaf in the way is not dropped: it moves into the new namespace under
    * the key `""` (unless the path itself continues through `""`, in which case
    * it is pushed further down the same way). */
  lemma DigPushesLeafDown(ns: Blueprint, path: seq<string>)
    requires path != [] && path[0] in ns && ns[path[0]].Leaf?
    requires |path| == 1 || path[1] != ""
    ensures "" in Dig(ns, path)[path[0]].ns && Dig(ns, path)[path[0]].ns[""] == ns[path[0]]
  {
  }

  /** Digging never loses or invents a leaf: the leaf keys of the whole tree
    * are the same before and after. */
  lemma {:induction false} DigKeepsLeaves(ns: Blueprint, path: seq<string>)
    ensures LeafKeys(Ns(Dig(ns, path))) == LeafKeys(Ns(ns))
    decreases |path|
  {
    if path != [] {
      var head := path[0];
      var child := ChildNamespace(ns, head);
      DigKeepsLeaves(child, path[1..]);
      var v := Ns(Dig(child, path[1..]));
      LeafKeysUpdate(ns, head, v);
      if head in ns {
        LeafKeysUpdate(ns, head, ns[head]);
        assert ns[head := ns[head]] == ns;
      } else {
        assert ns - {head} == ns;
      }
    }
  }

  /** The leaves below a namespace with one entry replaced. */
  lemma LeafKeysUpdate(ns: Blueprint, name: string, v: BlueprintNode)
    ensures LeafKeys(Ns(ns[name := v])) == LeafKeys(Ns(ns - {name})) + LeafKeys(v)
  {
    var updated := ns[name := v];
    var rest := ns - {name};
    forall key | key in LeafKeys(Ns(updated))
      ensures key in LeafKeys(Ns(rest)) + LeafKeys(v)
    {
      var n :| n in updated && key in LeafKeys(updated[n]);
      if n != name {
        assert rest[n] == updated[n];
      }
    }
    forall key | key in LeafKeys(Ns(rest)) + LeafKeys(v)
      ensures key in LeafKeys(Ns(updated))
    {
      if key in LeafKeys(v) {
        assert updated[name] == v;
      } else {
        var n :| n in rest && key in LeafKeys(rest[n]);
        assert updated[n] == rest[n];
      }
    }
  }

  /** Only entries along the path change: at every level the entries whose
    * names are not on the path are left as they were, with everything below
    * them. */
  lemma {:induction false} DigKeepsOffPath(ns: Blueprint, path: seq<string>, i: nat, name: string)
    requires i < |path| && name != path[i]
    requires NodeAt(Ns(ns), path[..i]).Some? && NodeAt(Ns(ns), path[..i]).value.Ns?
    requires name in NodeAt(Ns(ns), path[..i]).value.ns
    ensures NodeAt(Ns(Dig(ns, path)), path[..i] + [name]) == NodeAt(Ns(ns), path[..i] + [name])
    decreases i
  {
    var head := path[0];
    if i == 0 {
      assert path[..0] + [name] == [name];
    } else {
      assert path[..i] == [head] + path[1..][..i - 1];
      assert path[..i] + [name] == [head] + (path[1..][..i - 1] + [name]);
      assert head in ns;
      assert NodeAt(Ns(ns), path[..i]) == NodeAt(ns[head], path[1..][..i - 1]);
      assert ns[head].Ns?;
      var child := ns[head].ns;
      DigKeepsOffPath(child, path[1..], i - 1, name);
    }
  }

  /** Digging leaves every leaf where it was unless the leaf sits on the dug
    * path itself (where it is pushed down under `""`). */
  lemma {:induction false} DigKeepsLeafAt(ns: Blueprint, path: seq<string>, q: seq<string>, key: string)
    requires NodeAt(Ns(ns), q) == Some(Leaf(key))
    requires !(q <= path)
    ensures NodeAt(Ns(Dig(ns, path)), q) == Some(Leaf(key))
    decreases |path|
  {
    assert q != [];
    if path != [] && q[0] == path[0] {
      var head := path[0];
      assert NodeAt(Ns(ns), q) == NodeAt(ns[head], q[1..]);
      assert |q| >= 2;
      assert ns[head].Ns?;
      var child := ns[head].ns;
      assert NodeAt(Ns(child), q[1..]) == NodeAt(ns[head], q[1..]);
      assert !(q[1..] <= path[1..]);
      DigKeepsLeafAt(child, path[1..], q[1..], key);
    }
  }

  /** `ns.set(name, node)` on the namespace at `path`: the namespace dug by
    * `digTreeBlueprintNamespace` is shared with the root, so setting an entry
    * in it changes the root at that place. */
  function PutAt(ns: Blueprint, path: seq<string>, name: string, node: BlueprintNode): (r: Blueprint)
    requires IsNamespacePath(ns, path)
    ensures NodeAt(Ns(r), path + [name]) == Some(node)
    ensures IsNamespacePath(r, path)
    decreases |path|
  {
    if path == [] then ns[name := node]
    else
      assert NodeAt(Ns(ns), path) == NodeAt(ns[path[0]], path[1..]);
      var child := ns[path[0]].ns;
      assert (path + [name])[1..] == path[1..] + [name];
      ns[path[0] := Ns(PutAt(child, path[1..], name, node))]
  }

  /** Setting an entry leaves every leaf that is not at or below that entry
    * where it was. */
  lemma {:induction false} PutAtKeepsLeafAt(ns: Blueprint, path: seq<string>, name: string, node: BlueprintNode,
                                            q: seq<string>, key: string)
    requires IsNamespacePath(ns, path)
    requires NodeAt(Ns(ns), q) == Some(Leaf(key))
    requires !(path + [name] <= q)
    ensures NodeAt(Ns(PutAt(ns, path, name, node)), q) == Some(Leaf(key))
    decreases |path|
  {
    assert q != [];
    if path != [] && q[0] == path[0] {
      var head := path[0];
      assert NodeAt(Ns(ns), path) == NodeAt(ns[head], path[1..]);
      var child := ns[head].ns;
      assert NodeAt(Ns(ns), q) == NodeAt(ns[head], q[1..]);
      assert NodeAt(Ns(child), q[1..]) == NodeAt(ns[head], q[1..]);
      assert (path + [name])[1..] == path[1..] + [name];
      assert !(path[1..] + [name] <= q[1..]);
      PutAtKeepsLeafAt(child, path[1..], name, node, q[1..], key);
    } else if path == [] {
      assert q[0] != name;
    }
  }

  // ---------------------------------------------------------------------------
  // buildTree

  /** `buildTree` on one node: a leaf becomes `getValue` of its key, a
    * namespace the namespace of its children's trees. */
  function BuildNode<T>(n: BlueprintNode, getValue: string -> T): (r: TreeNode<T>)
    ensures r.TreeLeaf? <==> n.Leaf?
    ensures n.Leaf? ==> r.value == getValue(n.key)
    ensures n.Ns? ==> r.ns.Keys == n.ns.Keys
  {
    match n
    case Leaf(key) => TreeLeaf(getValue(key))
    case Ns(ns) => TreeNs(map name | name in ns :: BuildNode(ns[name], getValue))
  }

  /** `buildTree(blueprint, getValue)`. */
  function BuildTree<T>(blueprint: Blueprint, getValue: string -> T): (r: map<string, TreeNode<T>>)
    ensures r.Keys == blueprint.Keys
  {
    BuildNode(Ns(blueprint), getValue).ns
  }

  /** The node reached in a value tree by following `path`, if any. */
  function TreeNodeAt<T>(n: TreeNode<T>, path: seq<string>): Option<TreeNode<T>>
    decreases |path|
  {
    if path == [] then Some(n)
    else if n.TreeNs? && path[0] in n.ns then TreeNodeAt(n.ns[path[0]], path[1..])
    else None
  }

  /** Following any path in the built tree reaches exactly what the same path
    * reaches in the blueprint, built: same names at every level, namespaces
    * where the blueprint has namespaces and leaves where it has leaves. */
  lemma {:induction false} BuildNodeAt<T>(n: BlueprintNode, getValue: string -> T, path: seq<string>)
    ensures TreeNodeAt(BuildNode(n, getValue), path) ==
      match NodeAt(n, path)
      case None => None
      case Some(m) => Some(BuildNode(m, getValue))
    decreases |path|
  {
    if path != [] && n.Ns? && path[0] in n.ns {
      BuildNodeAt(n.ns[path[0]], getValue, path[1..]);
    }
  }

  /** Each leaf of the built tree holds `getValue` of the key of the
    * blueprint leaf at the same place, and the built tree has a leaf exactly
    * where the blueprint has one. */
  lemma BuildTreeLeaves<T>(blueprint: Blueprint, getValue: string -> T, path: seq<string>)
    ensures var t := TreeNodeAt(TreeNs(BuildTree(blueprint, getValue)), path);
      var b := NodeAt(Ns(blueprint), path);
      && (b.Some? && b.value.Leaf? ==> t == Some(TreeLeaf(getValue(b.value.key))))
      && (t.Some? && t.value.TreeLeaf? ==> b.Some? && b.value.Leaf? && t.value.value == getValue(b.value.key))
      && (t.Some? && t.value.TreeNs? <==> b.Some? && b.value.Ns?)
      && (t.Some? && t.value.TreeNs? ==> t.value.ns.Keys == b.value.ns.Keys)
  {
    BuildNodeAt(Ns(blueprint), getValue, path);
  }
}
