// The order in which the limit walk of src/limits.rs meets the nodes of a document.
module LimitsOrder {
  import opened Json
  import opened Limits

  // Where a node is: which entry to take at each level, from the top.
  type Path = seq<nat>

  // Entry i of an array or an object.
  predicate EntryAt(v: Value, i: nat, w: Value) {
    match v
    case Array(elements) => i < |elements| && elements[i] == w
    case Object(members) => i < |members| && members[i].value == w
    case _ => false
  }

  ghost predicate Leads(v: Value, path: Path, w: Value)
    decreases |path|
  {
    if path == [] then v == w else exists u :: EntryAt(v, path[0], u) && Leads(u, path[1..], w)
  }

  // Lexicographic order: a node comes before what is below it, and an entry
  // before the later ones.
  predicate Precedes(a: Path, b: Path) {
    b != [] && (a == [] || a[0] < b[0] || (a[0] == b[0] && Precedes(a[1..], b[1..])))
  }

  predicate Ascending(paths: seq<Path>) {
    forall i, j :: 0 <= i < j < |paths| ==> Precedes(paths[i], paths[j])
  }

  // The paths to the nodes of the preorder listing.
  function PathsOf(v: Value): (paths: seq<Path>)
    ensures |paths| == NodeCount(v)
    decreases NodeCount(v), 0
  {
    NodeCountOfTree(v);
    [[]] + PathsBelow(Children(v), 0)
  }

  function PathsBelow(vs: seq<Value>, first: nat): (paths: seq<Path>)
    ensures |paths| == NodeCountAll(vs)
    decreases NodeCountAll(vs), 1
  {
    if vs == [] then [] else Under(first, PathsOf(vs[0])) + PathsBelow(vs[1..], first + 1)
  }

  function Under(i: nat, paths: seq<Path>): seq<Path> {
    seq(|paths|, k requires 0 <= k < |paths| => [i] + paths[k])
  }

  lemma EntryIsChild(v: Value, i: nat, w: Value)
    ensures EntryAt(v, i, w) <==> i < |Children(v)| && Children(v)[i] == w
  {
  }

  lemma StepDown(v: Value, i: nat, path: Path, w: Value)
    requires i < |Children(v)|
    ensures Leads(v, [i] + path, w) <==> Leads(Children(v)[i], path, w)
  {
    assert ([i] + path)[1..] == path;
    forall u ensures EntryAt(v, i, u) <==> u == Children(v)[i] {
      EntryIsChild(v, i, u);
    }
  }

  lemma {:induction false} PathsAscend(v: Value)
    ensures Ascending(PathsOf(v))
    decreases NodeCount(v), 0
  {
    NodeCountOfTree(v);
    PathsBelowAscend(Children(v), 0);
  }

  lemma {:induction false} PathsBelowAscend(vs: seq<Value>, first: nat)
    ensures Ascending(PathsBelow(vs, first))
    ensures forall path :: path in PathsBelow(vs, first) ==> path != [] && path[0] >= first
    decreases NodeCountAll(vs), 1
  {
    if vs != [] {
      var here, rest := PathsOf(vs[0]), PathsBelow(vs[1..], first + 1);
      PathsAscend(vs[0]);
      PathsBelowAscend(vs[1..], first + 1);
      var all := Under(first, here) + rest;
      forall i, j | 0 <= i < j < |all| ensures Precedes(all[i], all[j]) {
        if j < |here| {
          assert all[i] == [first] + here[i] && all[j] == [first] + here[j];
          assert all[i][1..] == here[i] && all[j][1..] == here[j];
        } else if i < |here| {
          assert all[j] in rest;
        } else {
          assert all[i] == rest[i - |here|] && all[j] == rest[j - |here|];
        }
      }
    }
  }

  // The path leads to the node, whose depth below the top is the path's length.
  ghost predicate Finds(v: Value, depth: nat, path: Path, node: TreeNode) {
    Leads(v, path, node.value) && node.depth == depth + |path|
  }

  // The same from a list of trees, the first of which is entry `first`.
  ghost predicate FindsBelow(vs: seq<Value>, first: nat, depth: nat, path: Path, node: TreeNode) {
    && path != [] && first <= path[0] < first + |vs|
    && Finds(vs[path[0] - first], depth, path[1..], node)
  }

  lemma {:induction false} PathsLead(v: Value, depth: nat)
    ensures forall k :: 0 <= k < NodeCount(v) ==> Finds(v, depth, PathsOf(v)[k], Preorder(v, depth)[k])
    decreases NodeCount(v), 0
  {
    NodeCountOfTree(v);
    var vs := Children(v);
    var below, nodes := PathsBelow(vs, 0), PreorderAll(vs, depth + 1);
    PathsBelowLead(vs, 0, depth + 1);
    forall k | 0 <= k < NodeCount(v) ensures Finds(v, depth, PathsOf(v)[k], Preorder(v, depth)[k]) {
      if k > 0 {
        assert FindsBelow(vs, 0, depth + 1, below[k - 1], nodes[k - 1]);
        FindsChild(v, depth, below[k - 1], nodes[k - 1]);
      }
    }
  }

  lemma FindsChild(v: Value, depth: nat, path: Path, node: TreeNode)
    requires FindsBelow(Children(v), 0, depth + 1, path, node)
    ensures Finds(v, depth, path, node)
  {
    StepDown(v, path[0], path[1..], node.value);
    assert [path[0]] + path[1..] == path;
  }

  lemma {:induction false} PathsBelowLead(vs: seq<Value>, first: nat, depth: nat)
    ensures forall k :: 0 <= k < NodeCountAll(vs) ==>
              FindsBelow(vs, first, depth, PathsBelow(vs, first)[k], PreorderAll(vs, depth)[k])
    decreases NodeCountAll(vs), 1
  {
    if vs != [] {
      PathsLead(vs[0], depth);
      PathsBelowLead(vs[1..], first + 1, depth);
      var here, rest := PathsOf(vs[0]), PathsBelow(vs[1..], first + 1);
      var own, others := Preorder(vs[0], depth), PreorderAll(vs[1..], depth);
      var paths, nodes := Under(first, here) + rest, own + others;
      forall k | 0 <= k < |paths| ensures FindsBelow(vs, first, depth, paths[k], nodes[k]) {
        if k < |here| {
          assert Finds(vs[0], depth, here[k], own[k]);
          assert paths[k] == [first] + here[k] && paths[k][1..] == here[k];
        } else {
          var m := k - |here|;
          assert FindsBelow(vs[1..], first + 1, depth, rest[m], others[m]);
          assert paths[k] == rest[m] && nodes[k] == others[m];
          assert vs[1..][rest[m][0] - first - 1] == vs[rest[m][0] - first];
        }
      }
    }
  }

  lemma {:induction false} EveryPathIsListed(v: Value, path: Path, w: Value)
    requires Leads(v, path, w)
    ensures path in PathsOf(v)
    decreases |path|
  {
    if path != [] {
      var u :| EntryAt(v, path[0], u) && Leads(u, path[1..], w);
      EntryIsChild(v, path[0], u);
      EveryPathIsListed(u, path[1..], w);
      ListedBelow(Children(v), 0, path[0], path[1..]);
      assert path == [path[0]] + path[1..];
    } else {
      assert PathsOf(v)[0] == [];
    }
  }

  lemma {:induction false} ListedBelow(vs: seq<Value>, first: nat, i: nat, path: Path)
    requires i < |vs| && path in PathsOf(vs[i])
    ensures [first + i] + path in PathsBelow(vs, first)
    decreases i
  {
    if i == 0 {
      ListedUnder(first, PathsOf(vs[0]), path);
    } else {
      assert vs[1..][i - 1] == vs[i];
      ListedBelow(vs[1..], first + 1, i - 1, path);
    }
  }

  lemma ListedUnder(i: nat, paths: seq<Path>, path: Path)
    requires path in paths
    ensures [i] + path in Under(i, paths)
  {
    var k :| 0 <= k < |paths| && paths[k] == path;
    assert Under(i, paths)[k] == [i] + path;
  }

  // The listing has one entry for every path into the document, in lexicographic
  // order: parents before children, and children in iteration order.
  lemma PreorderIsLexicographic(v: Value) returns (paths: seq<Path>)
    ensures |paths| == |Preorder(v, 0)| && Ascending(paths)
    ensures forall k :: 0 <= k < |paths| ==>
              Leads(v, paths[k], Preorder(v, 0)[k].value) && Preorder(v, 0)[k].depth == |paths[k]|
    ensures forall path, w :: Leads(v, path, w) ==> path in paths
  {
    paths := PathsOf(v);
    PathsAscend(v);
    PathsLead(v, 0);
    forall k | 0 <= k < |paths|
      ensures Leads(v, paths[k], Preorder(v, 0)[k].value) && Preorder(v, 0)[k].depth == |paths[k]|
    {
      assert Finds(v, 0, paths[k], Preorder(v, 0)[k]);
    }
    forall path, w | Leads(v, path, w) ensures path in paths {
      EveryPathIsListed(v, path, w);
    }
  }
}
