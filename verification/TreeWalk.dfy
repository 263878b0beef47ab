/** typescriptWalk of scripts/api/compare-tree-walk.ts, with its explicit stack, and the recursive walk of
    scripts/api/compare-api.ts. */
module TreeWalk {
  import opened Sequences
  import opened Text
  import opened Decimal
  import opened Diagnostics

  /** A syntax tree node: its kind, its start without leading trivia, its end, its full start, and its children
      in the order forEachChild visits them. */
  datatype Node = Node(kind: nat, start: int, end: int, pos: int, children: seq<Node>)

  /** The tree in pre-order. */
  function PreOrder(n: Node): (nodes: seq<Node>)
    ensures nodes != [] && nodes[0] == n
    decreases n, 1
  {
    [n] + PreOrderAll(n.children)
  }

  function PreOrderAll(ns: seq<Node>): seq<Node>
    decreases ns, 0
  {
    if ns == [] then [] else PreOrder(ns[0]) + PreOrderAll(ns[1..])
  }

  // ----- the explicit stack

  /** `${kindName(node.kind)} ${node.getStart(sourceFile)} ${node.end}`. */
  function LineOf(kindName: nat -> string): Node -> string {
    (n: Node) => kindName(n.kind) + " " + IntText(n.start) + " " + IntText(n.end)
  }

  function FullStart(n: Node): int { n.pos }

  datatype Walk = Walk(lines: seq<string>, fullStarts: seq<int>)

  function WalkOf(nodes: seq<Node>, kindName: nat -> string): Walk {
    Walk(Map(nodes, LineOf(kindName)), Map(nodes, FullStart))
  }

  /** What is still to be visited: the trees on the stack, from the top down. */
  function StackOrder(stack: seq<Node>): seq<Node> {
    if stack == [] then [] else PreOrder(stack[|stack| - 1]) + StackOrder(stack[..|stack| - 1])
  }

  /** typescriptWalk; None stands for "syntax-errors". */
  method TypescriptWalk(sourceFile: Node, parseDiagnostics: nat, kindName: nat -> string) returns (walk: Option<Walk>)
    ensures walk == if parseDiagnostics > 0 then None else Some(WalkOf(PreOrder(sourceFile), kindName))
  {
    if parseDiagnostics > 0 {
      return None;
    }
    var lines: seq<string>, fullStarts: seq<int> := [], [];
    var stack := [sourceFile];
    ghost var visited: seq<Node> := [];
    assert stack[..0] == [];
    while stack != []
      invariant visited + StackOrder(stack) == PreOrder(sourceFile)
      invariant Walk(lines, fullStarts) == WalkOf(visited, kindName)
      decreases |StackOrder(stack)|
    {
      var node, base := stack[|stack| - 1], stack[..|stack| - 1];
      lines := lines + [LineOf(kindName)(node)];
      fullStarts := fullStarts + [node.pos];
      WalkSnoc(visited, node, kindName);
      stack := PushChildren(base, node.children);
      Shift(visited, node, PreOrderAll(node.children), StackOrder(base));
      visited := visited + [node];
    }
    assert visited + [] == visited;
    return Some(Walk(lines, fullStarts));
  }

  lemma WalkSnoc(visited: seq<Node>, node: Node, kindName: nat -> string)
    ensures var w := WalkOf(visited, kindName);
            WalkOf(visited + [node], kindName) == Walk(w.lines + [LineOf(kindName)(node)], w.fullStarts + [node.pos])
  {
    MapSnoc(visited, node, LineOf(kindName));
    MapSnoc(visited, node, FullStart);
  }

  lemma Shift<T>(visited: seq<T>, x: T, a: seq<T>, b: seq<T>)
    ensures (visited + [x]) + (a + b) == visited + (([x] + a) + b)
    ensures |a + b| < |([x] + a) + b|
  {
  }

  /** The loop that pushes the children, last child first. */
  method PushChildren(base: seq<Node>, children: seq<Node>) returns (stack: seq<Node>)
    ensures StackOrder(stack) == PreOrderAll(children) + StackOrder(base)
  {
    stack := base;
    var i := |children|;
    while i > 0
      invariant 0 <= i <= |children|
      invariant StackOrder(stack) == PreOrderAll(children[i..]) + StackOrder(base)
    {
      i := i - 1;
      PushChild(stack, base, children, i);
      stack := stack + [children[i]];
    }
    assert children[0..] == children;
  }

  lemma PushOrder(stack: seq<Node>, n: Node)
    ensures StackOrder(stack + [n]) == PreOrder(n) + StackOrder(stack)
  {
    assert (stack + [n])[..|stack|] == stack;
  }

  lemma PushChild(stack: seq<Node>, base: seq<Node>, children: seq<Node>, i: nat)
    requires i < |children| && StackOrder(stack) == PreOrderAll(children[i + 1..]) + StackOrder(base)
    ensures StackOrder(stack + [children[i]]) == PreOrderAll(children[i..]) + StackOrder(base)
  {
    PushOrder(stack, children[i]);
    assert children[i..][0] == children[i] && children[i..][1..] == children[i + 1..];
    assert PreOrderAll(children[i..]) == PreOrder(children[i]) + PreOrderAll(children[i + 1..]);
    Associates(PreOrder(children[i]), PreOrderAll(children[i + 1..]), StackOrder(base));
  }

  /** Theorem: every node gives one line and one full start. */
  lemma WalkLengths(root: Node, kindName: nat -> string)
    ensures |WalkOf(PreOrder(root), kindName).lines| == |WalkOf(PreOrder(root), kindName).fullStarts| == NodeCount(root)
  {
    CountIsLength(root);
  }

  function NodeCount(n: Node): nat
    decreases n, 1
  {
    1 + CountAll(n.children)
  }

  function CountAll(ns: seq<Node>): nat
    decreases ns, 0
  {
    if ns == [] then 0 else NodeCount(ns[0]) + CountAll(ns[1..])
  }

  lemma {:induction false} CountIsLength(n: Node)
    ensures |PreOrder(n)| == NodeCount(n)
    decreases n, 1
  {
    CountAllIsLength(n.children);
  }

  lemma {:induction false} CountAllIsLength(ns: seq<Node>)
    ensures |PreOrderAll(ns)| == CountAll(ns)
    decreases ns, 0
  {
    if ns != [] {
      CountIsLength(ns[0]);
      CountAllIsLength(ns[1..]);
    }
  }

  // ----- the recursive walk

  datatype NodeRecord = NodeRecord(key: string, kind: string, node: Node)

  function RecordOf(kindName: nat -> string): Node -> NodeRecord {
    (n: Node) => NodeRecord(kindName(n.kind) + "@" + IntText(n.start) + "-" + IntText(n.end), kindName(n.kind), n)
  }

  lemma RecordsAppend<T, R>(out: seq<R>, a: seq<T>, b: seq<T>, f: T -> R)
    ensures (out + Map(a, f)) + Map(b, f) == out + Map(a + b, f)
  {
    MapAppend(a, b, f);
  }

  /** The shared `out` array of the recursive walk. */
  class Recorder {
    const kindName: nat -> string
    var out: seq<NodeRecord>

    constructor (kindName: nat -> string)
      ensures this.kindName == kindName && out == []
    {
      this.kindName, out := kindName, [];
    }

    method Visit(node: Node)
      modifies this
      ensures out == old(out) + Map(PreOrder(node), RecordOf(kindName))
      decreases node, 1
    {
      out := out + [RecordOf(kindName)(node)];
      assert Map([node], RecordOf(kindName)) == [RecordOf(kindName)(node)];
      ForEachChild(node.children);
      RecordsAppend(old(out), [node], PreOrderAll(node.children), RecordOf(kindName));
    }

    /** `forEachChild(node, visit)`: no visit returns a value, so none ends the iteration early. */
    method ForEachChild(children: seq<Node>)
      modifies this
      ensures out == old(out) + Map(PreOrderAll(children), RecordOf(kindName))
      decreases children, 0
    {
      if children != [] {
        Visit(children[0]);
        ForEachChild(children[1..]);
        RecordsAppend(old(out), PreOrder(children[0]), PreOrderAll(children[1..]), RecordOf(kindName));
      }
    }
  }

  /** walk: the records of all nodes below the source file. */
  method RecordNodes(sourceFile: Node, kindName: nat -> string) returns (records: seq<NodeRecord>)
    ensures records == Map(PreOrderAll(sourceFile.children), RecordOf(kindName))
  {
    var recorder := new Recorder(kindName);
    recorder.ForEachChild(sourceFile.children);
    records := recorder.out;
  }

  function NodeOf(r: NodeRecord): Node { r.node }

  /** Theorem: the explicit-stack walk lists the root and then exactly the nodes the recursive walk records, in
      the same order. */
  lemma WalksAgree(sourceFile: Node, kindName: nat -> string, records: seq<NodeRecord>)
    requires records == Map(PreOrderAll(sourceFile.children), RecordOf(kindName))
    ensures WalkOf(PreOrder(sourceFile), kindName) == WalkOf([sourceFile] + Map(records, NodeOf), kindName)
  {
    assert Map(records, NodeOf) == PreOrderAll(sourceFile.children);
  }

  // ----- pre-order, without saying how it is computed

  /** A position in the tree: the child indices from the root down. */
  type Path = seq<nat>

  predicate ValidPath(n: Node, p: Path)
    decreases |p|
  {
    p == [] || (p[0] < |n.children| && ValidPath(n.children[p[0]], p[1..]))
  }

  function NodeAt(n: Node, p: Path): Node
    requires ValidPath(n, p)
    decreases |p|
  {
    if p == [] then n else NodeAt(n.children[p[0]], p[1..])
  }

  /** How many nodes the walk lists before the one at `p`: the ancestors, and everything under earlier siblings. */
  function Rank(n: Node, p: Path): nat
    requires ValidPath(n, p)
    decreases |p|
  {
    if p == [] then 0 else 1 + CountAll(n.children[..p[0]]) + Rank(n.children[p[0]], p[1..])
  }

  lemma {:induction false} PreOrderSplit(ns: seq<Node>, k: nat)
    requires k < |ns|
    ensures PreOrderAll(ns) == PreOrderAll(ns[..k]) + PreOrder(ns[k]) + PreOrderAll(ns[k + 1..])
    decreases k
  {
    if k == 0 {
      assert ns[..0] == [];
    } else {
      PreOrderSplit(ns[1..], k - 1);
      assert ns[1..][..k - 1] == ns[..k][1..] && ns[1..][k..] == ns[k + 1..];
    }
  }

  /** Theorem: the node at a path stands in the walk at the rank of the path: parents come before children, and
      a subtree comes whole before the next one. */
  lemma {:induction false} RankIsIndex(n: Node, p: Path)
    requires ValidPath(n, p)
    ensures Rank(n, p) < |PreOrder(n)| && PreOrder(n)[Rank(n, p)] == NodeAt(n, p)
    decreases |p|
  {
    if p != [] {
      var k := p[0];
      RankIsIndex(n.children[k], p[1..]);
      PreOrderSplit(n.children, k);
      CountAllIsLength(n.children[..k]);
    }
  }

  // ----- what a line and a record say

  lemma NoSpaceInNumber(n: int)
    ensures ' ' !in IntText(n)
  {
  }

  /** Theorem: the line at the rank of a path gives, field by field, the kind, the start and the end of the node
      there, and the full start beside it is the node's. */
  lemma WalkLineReads(root: Node, p: Path, kindName: nat -> string)
    requires ValidPath(root, p) && ' ' !in kindName(NodeAt(root, p).kind)
    ensures var w, n := WalkOf(PreOrder(root), kindName), NodeAt(root, p);
            && Rank(root, p) < |w.lines| == |w.fullStarts|
            && SplitOn(w.lines[Rank(root, p)], ' ') == [kindName(n.kind), IntText(n.start), IntText(n.end)]
            && w.fullStarts[Rank(root, p)] == n.pos
  {
    var n := NodeAt(root, p);
    RankIsIndex(root, p);
    NoSpaceInNumber(n.start);
    NoSpaceInNumber(n.end);
    SplitOnThree(kindName(n.kind), IntText(n.start), IntText(n.end), ' ');
    assert LineOf(kindName)(n) == kindName(n.kind) + [' '] + IntText(n.start) + [' '] + IntText(n.end);
  }

  lemma DigitsHoldNoMark(n: int)
    requires n >= 0
    ensures '@' !in IntText(n) && '-' !in IntText(n)
  {
    assert AllDigits(NatText(n));
  }

  /** Theorem: a record's key gives back its kind, its start and its end. */
  lemma RecordKeyReads(n: Node, kindName: nat -> string)
    requires '@' !in kindName(n.kind) && 0 <= n.start && 0 <= n.end
    ensures var r := RecordOf(kindName)(n);
            && r.kind == kindName(n.kind) && r.node == n
            && |SplitOn(r.key, '@')| == 2 && SplitOn(r.key, '@')[0] == kindName(n.kind)
            && SplitOn(SplitOn(r.key, '@')[1], '-') == [IntText(n.start), IntText(n.end)]
  {
    var kind, start, end := kindName(n.kind), IntText(n.start), IntText(n.end);
    DigitsHoldNoMark(n.start);
    DigitsHoldNoMark(n.end);
    var range := start + (['-'] + end);
    assert RecordOf(kindName)(n).key == kind + (['@'] + range);
    SplitOnFirst(kind, range, '@');
    SplitOnLast(range, '@');
    SplitOnFirst(start, end, '-');
    SplitOnLast(end, '-');
  }
}
