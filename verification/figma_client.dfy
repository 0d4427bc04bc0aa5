/**
 * The pure part of the Figma client: the walk over the document tree that collects
 * component nodes, and the step of `getIcons` that pairs nodes with their exported SVG.
 * The HTTP calls are replaced by their results, given as parameters.
 */
module FigmaClient {
  import opened Wrappers
  import opened Types
  import opened Text

  const Component: string := "COMPONENT"

  /** The node types under which the walk descends in its first loop. */
  predicate IsContainer(nodeType: string) {
    nodeType == "INSTANCE" || nodeType == "FRAME" || nodeType == "GROUP"
  }

  /**
   * `traverseNodes`: a component is collected and not entered. Any other node has its
   * children walked once by the final loop, and an INSTANCE, FRAME or GROUP a second
   * time by the first one, so what lies below it is collected twice.
   */
  function Traverse(node: FigmaNode): (r: seq<FigmaNode>)
    ensures forall i :: 0 <= i < |r| ==> r[i].nodeType == Component
    decreases node, 1, 0
  {
    if node.nodeType == Component then [node]
    else if IsContainer(node.nodeType) then TraverseChildren(node, 0) + TraverseChildren(node, 0)
    else TraverseChildren(node, 0)
  }

  /** The results of the children from the `i`-th on, in order. */
  function TraverseChildren(node: FigmaNode, i: nat): (r: seq<FigmaNode>)
    requires i <= |node.children|
    ensures forall k :: 0 <= k < |r| ==> r[k].nodeType == Component
    decreases node, 0, |node.children| - i
  {
    if i == |node.children| then []
    else Traverse(node.children[i]) + TraverseChildren(node, i + 1)
  }

  /** The results of all children: what a non-component node collects per loop. */
  function ChildResults(node: FigmaNode): seq<FigmaNode> {
    TraverseChildren(node, 0)
  }

  /** `target` is `node` or lies below it on a path that enters no component. */
  ghost predicate Reaches(node: FigmaNode, target: FigmaNode)
    decreases node
  {
    node == target
    || (node.nodeType != Component
        && exists i :: 0 <= i < |node.children| && Reaches(node.children[i], target))
  }

  /** `n` copies of `x`. */
  function Copies(x: FigmaNode, n: nat): (r: seq<FigmaNode>)
    ensures |r| == n && forall k :: 0 <= k < n ==> r[k] == x
  {
    if n == 0 then [] else [x] + Copies(x, n - 1)
  }

  function Pow2(d: nat): nat {
    if d == 0 then 1 else 2 * Pow2(d - 1)
  }

  /** `node` wraps `component` in `d` containers, each the only child of the one above. */
  predicate ContainerChain(node: FigmaNode, d: nat, component: FigmaNode)
    decreases d
  {
    if d == 0 then node == component && component.nodeType == Component
    else IsContainer(node.nodeType) && |node.children| == 1 && ContainerChain(node.children[0], d - 1, component)
  }

  /** Each container level doubles what lies below it: a component under `d` nested containers is collected 2^d times. */
  lemma {:induction false} NestedComponentCopies(node: FigmaNode, d: nat, component: FigmaNode)
    requires ContainerChain(node, d, component)
    ensures Traverse(node) == Copies(component, Pow2(d))
    decreases d
  {
    if d > 0 {
      var below := Traverse(node.children[0]);
      NestedComponentCopies(node.children[0], d - 1, component);
      assert TraverseChildren(node, 1) == [];
      assert TraverseChildren(node, 0) == below + [];
      assert Traverse(node) == below + below;
      assert Copies(component, Pow2(d - 1)) + Copies(component, Pow2(d - 1)) == Copies(component, Pow2(d));
    }
  }

  /**
   * The walk collects exactly the components reachable without entering a component:
   * each of them at least once, and nothing else.
   */
  lemma {:induction false} TraverseFindsComponents(node: FigmaNode, target: FigmaNode)
    ensures target in Traverse(node) <==> target.nodeType == Component && Reaches(node, target)
    decreases node, 1, 0
  {
    if node.nodeType != Component {
      ChildrenFindComponents(node, 0, target);
    }
  }

  lemma {:induction false} ChildrenFindComponents(node: FigmaNode, i: nat, target: FigmaNode)
    requires i <= |node.children|
    ensures target in TraverseChildren(node, i)
            <==> target.nodeType == Component
                 && exists j :: i <= j < |node.children| && Reaches(node.children[j], target)
    decreases node, 0, |node.children| - i
  {
    if i < |node.children| {
      TraverseFindsComponents(node.children[i], target);
      ChildrenFindComponents(node, i + 1, target);
      if target.nodeType == Component && exists j :: i <= j < |node.children| && Reaches(node.children[j], target) {
        var j :| i <= j < |node.children| && Reaches(node.children[j], target);
        if j > i {
          assert i + 1 <= j;
        }
      }
    }
  }

  /** Nested containers compound the duplication: a component two frames deep comes back four times. */
  lemma NestedFramesRepeatComponent(icon: FigmaNode, inner: FigmaNode, outer: FigmaNode)
    requires icon.nodeType == Component
    requires inner.nodeType == "FRAME" && inner.children == [icon]
    requires outer.nodeType == "FRAME" && outer.children == [inner]
    ensures Traverse(outer) == [icon, icon, icon, icon]
  {
    assert TraverseChildren(inner, 1) == [];
    assert TraverseChildren(inner, 0) == [icon];
    assert Traverse(inner) == [icon, icon];
    assert TraverseChildren(outer, 1) == [];
    assert TraverseChildren(outer, 0) == [icon, icon];
  }

  // ---------------------------------------------------------------------------
  // Pairing nodes with their SVG

  /** `svgContents[node.id]` is truthy: present and not the empty string. */
  predicate HasSvg(svgContents: map<string, string>, id: string) {
    id in svgContents && svgContents[id] != ""
  }

  /** The icon built for a node: its name twice, the SVG, its id. */
  function IconOf(node: FigmaNode, svg: string): (icon: IconData)
    ensures icon.name == node.name && icon.originalName == node.name
    ensures icon.svg == svg && icon.nodeId == node.id
  {
    IconData(node.name, node.name, svg, node.id)
  }

  /** `icon` is the icon of one of `nodes` that has an SVG. */
  ghost predicate BuiltFrom(icon: IconData, nodes: seq<FigmaNode>, svgContents: map<string, string>) {
    exists n :: n in nodes && HasSvg(svgContents, n.id) && icon == IconOf(n, svgContents[n.id])
  }

  /** The combine step of `getIcons`: keep the nodes that have an SVG, and build their icons. */
  function CombineIcons(nodes: seq<FigmaNode>, svgContents: map<string, string>): (icons: seq<IconData>)
    ensures |icons| <= |nodes|
    ensures forall k :: 0 <= k < |icons| ==> icons[k].svg != "" && icons[k].name == icons[k].originalName
    ensures forall k :: 0 <= k < |icons| ==> BuiltFrom(icons[k], nodes, svgContents)
  {
    if nodes == [] then []
    else
      var rest := CombineIcons(nodes[1..], svgContents);
      forall k | 0 <= k < |rest| ensures BuiltFrom(rest[k], nodes, svgContents) {
        assert BuiltFrom(rest[k], nodes[1..], svgContents);
        var n :| n in nodes[1..] && HasSvg(svgContents, n.id) && rest[k] == IconOf(n, svgContents[n.id]);
        assert n in nodes;
      }
      if HasSvg(svgContents, nodes[0].id) then
        var icons := [IconOf(nodes[0], svgContents[nodes[0].id])] + rest;
        assert nodes[0] in nodes;
        assert forall k :: 0 < k < |icons| ==> icons[k] == rest[k - 1];
        icons
      else rest
  }

  /** Every node that has an SVG gets its icon. */
  lemma {:induction false} CombineKeepsExported(nodes: seq<FigmaNode>, svgContents: map<string, string>, j: nat)
    requires j < |nodes| && HasSvg(svgContents, nodes[j].id)
    ensures IconOf(nodes[j], svgContents[nodes[j].id]) in CombineIcons(nodes, svgContents)
  {
    if j > 0 {
      CombineKeepsExported(nodes[1..], svgContents, j - 1);
      assert nodes[1..][j - 1] == nodes[j];
    }
  }

  /** The combine step works node by node, so the icons come in the order of their nodes. */
  lemma {:induction false} CombineOfConcat(a: seq<FigmaNode>, b: seq<FigmaNode>, svgContents: map<string, string>)
    ensures CombineIcons(a + b, svgContents) == CombineIcons(a, svgContents) + CombineIcons(b, svgContents)
  {
    if a == [] {
      assert a + b == b;
    } else {
      assert (a + b)[1..] == a[1..] + b;
      assert (a + b)[0] == a[0];
      CombineOfConcat(a[1..], b, svgContents);
    }
  }

  /** The nodes whose name passes the filter, in order; no filter keeps them all. */
  function FilterByName(nodes: seq<FigmaNode>, nameFilter: Option<string -> bool>): (r: seq<FigmaNode>)
    ensures |r| <= |nodes|
    ensures nameFilter.None? ==> r == nodes
    ensures forall k :: 0 <= k < |r| ==> r[k] in nodes && (nameFilter.Some? ==> nameFilter.value(r[k].name))
    ensures nameFilter.Some? ==> forall n :: n in nodes && nameFilter.value(n.name) ==> n in r
  {
    if nameFilter.None? || nodes == [] then nodes
    else
      var rest := FilterByName(nodes[1..], nameFilter);
      assert forall k :: 0 <= k < |rest| ==> rest[k] in nodes by {
        forall k | 0 <= k < |rest| ensures rest[k] in nodes {
          assert rest[k] in nodes[1..];
        }
      }
      if nameFilter.value(nodes[0].name) then [nodes[0]] + rest else rest
  }

  /** Filtering keeps the order: filtering two runs of nodes one after the other is filtering each. */
  lemma {:induction false} FilterOfConcat(a: seq<FigmaNode>, b: seq<FigmaNode>, nameFilter: Option<string -> bool>)
    ensures FilterByName(a + b, nameFilter) == FilterByName(a, nameFilter) + FilterByName(b, nameFilter)
    decreases |a|
  {
    if nameFilter.Some? {
      if a == [] {
        assert a + b == b;
        assert FilterByName(a, nameFilter) == [];
      } else {
        var ab := a + b;
        assert ab[1..] == a[1..] + b;
        assert ab[0] == a[0];
        var head := if nameFilter.value(a[0].name) then [a[0]] else [];
        assert FilterByName(ab, nameFilter) == head + FilterByName(a[1..] + b, nameFilter);
        assert FilterByName(a, nameFilter) == head + FilterByName(a[1..], nameFilter);
        FilterOfConcat(a[1..], b, nameFilter);
        AppendAssociates(head, FilterByName(a[1..], nameFilter), FilterByName(b, nameFilter));
      }
    }
  }

  function NodeIds(nodes: seq<FigmaNode>): (ids: seq<string>)
    ensures |ids| == |nodes| && forall k :: 0 <= k < |nodes| ==> ids[k] == nodes[k].id
  {
    seq(|nodes|, k requires 0 <= k < |nodes| => nodes[k].id)
  }

  /**
   * `getIcons` from the fetched root on: walk, filter by name, and when a node is left,
   * export the SVG of the remaining ids and combine; `exportSvgs` is the result of the download.
   */
  function GetIcons(root: FigmaNode, nameFilter: Option<string -> bool>,
                    exportSvgs: seq<string> -> map<string, string>): (icons: seq<IconData>)
    ensures FilterByName(Traverse(root), nameFilter) == [] ==> icons == []
    ensures forall k :: 0 <= k < |icons| ==> icons[k].svg != ""
    ensures nameFilter.Some? ==> forall k :: 0 <= k < |icons| ==> nameFilter.value(icons[k].name)
  {
    var filtered := FilterByName(Traverse(root), nameFilter);
    if |filtered| == 0 then []
    else CombineIcons(filtered, exportSvgs(NodeIds(filtered)))
  }
}
