/** The syntax tree the analysis consumes, the node classifications it
    looks for, and tree-wide reference definitions (occurrence, counting,
    pre-order listing) that the walk is proved against. */
module Syntax {
  import opened Text

  datatype Option<+T> = None | Some(value: T)

  /** A syntax-tree node: its grammar kind label, its own source text
      (`None` when the text cannot be recovered from the byte span) and its
      children in document order. */
  datatype Node = Node(kind: string, text: Option<string>, children: seq<Node>)

  /** Kinds counted as functions: TypeScript method definitions and
      function declarations. */
  predicate IsFunctionLike(kind: string)
  {
    kind == "method_definition" || kind == "function_declaration"
  }

  /** The kind counted as a decision point. */
  predicate IsDecision(kind: string)
  {
    kind == "if_statement"
  }

  /** Text markers of a SharePoint or Microsoft Graph client. */
  predicate MentionsApi(text: string)
  {
    Contains(text, "spHttpClient") || Contains(text, "graphClient")
  }

  /** Text markers of direct DOM access or markup injection. */
  predicate MentionsDom(text: string)
  {
    Contains(text, "document.") || Contains(text, ".innerHTML")
  }

  /** The node's own recoverable text carries an API marker. */
  predicate ApiSignal(n: Node)
  {
    n.text.Some? && MentionsApi(n.text.value)
  }

  /** The node's own recoverable text carries a DOM marker. */
  predicate DomSignal(n: Node)
  {
    n.text.Some? && MentionsDom(n.text.value)
  }

  /** `m` is `n` or a node anywhere below it. */
  ghost predicate Occurs(m: Node, n: Node)
    decreases n
  {
    m == n || exists i :: 0 <= i < |n.children| && Occurs(m, n.children[i])
  }

  /** Some node of the tree rooted at `n` satisfies `p`. */
  ghost predicate AnyNode(n: Node, p: Node -> bool)
  {
    exists m :: Occurs(m, n) && p(m)
  }

  /** Some node of one of the trees `cs` satisfies `p`. */
  ghost predicate AnyNodeIn(cs: seq<Node>, p: Node -> bool)
  {
    exists i :: 0 <= i < |cs| && AnyNode(cs[i], p)
  }

  lemma AnyNodeUnfold(n: Node, p: Node -> bool)
    ensures AnyNode(n, p) <==> p(n) || AnyNodeIn(n.children, p)
  {
  }

  lemma AnyNodeInUnfold(cs: seq<Node>, p: Node -> bool)
    ensures |cs| == 0 ==> !AnyNodeIn(cs, p)
    ensures |cs| > 0 ==> (AnyNodeIn(cs, p) <==> AnyNode(cs[0], p) || AnyNodeIn(cs[1..], p))
  {
  }

  /** Number of nodes in the tree. */
  function Size(n: Node): nat
    decreases n
  {
    1 + SizeAll(n.children)
  }

  function SizeAll(cs: seq<Node>): nat
    decreases cs
  {
    if |cs| == 0 then 0 else Size(cs[0]) + SizeAll(cs[1..])
  }

  /** Number of nodes of the tree whose kind satisfies `p`, at any depth. */
  function CountWhere(n: Node, p: string -> bool): nat
    decreases n
  {
    (if p(n.kind) then 1 else 0) + CountWhereAll(n.children, p)
  }

  function CountWhereAll(cs: seq<Node>, p: string -> bool): nat
    decreases cs
  {
    if |cs| == 0 then 0 else CountWhere(cs[0], p) + CountWhereAll(cs[1..], p)
  }

  /** Number of nodes lying at a depth below `limit` when `n` sits at depth `depth`. */
  function ShallowCount(n: Node, depth: nat, limit: nat): nat
    decreases n
  {
    (if depth < limit then 1 else 0) + ShallowCountAll(n.children, depth + 1, limit)
  }

  function ShallowCountAll(cs: seq<Node>, depth: nat, limit: nat): nat
    decreases cs
  {
    if |cs| == 0 then 0
    else ShallowCount(cs[0], depth, limit) + ShallowCountAll(cs[1..], depth, limit)
  }

  /** A node together with the depth at which it is visited. */
  datatype Visit = Visit(node: Node, depth: nat)

  /** Pre-order listing of a tree whose root sits at `depth`: the node
      itself, then the listings of its children, left to right. */
  function Listing(n: Node, depth: nat): seq<Visit>
    decreases n
  {
    [Visit(n, depth)] + ListingAll(n.children, depth + 1)
  }

  function ListingAll(cs: seq<Node>, depth: nat): seq<Visit>
    decreases cs
  {
    if |cs| == 0 then [] else Listing(cs[0], depth) + ListingAll(cs[1..], depth)
  }

  /** The listing visits every node exactly once: its length is the tree size. */
  lemma {:induction false} ListingSize(n: Node, depth: nat)
    ensures |Listing(n, depth)| == Size(n)
    decreases n
  {
    ListingAllSize(n.children, depth + 1);
  }

  lemma {:induction false} ListingAllSize(cs: seq<Node>, depth: nat)
    ensures |ListingAll(cs, depth)| == SizeAll(cs)
    decreases cs
  {
    if |cs| > 0 {
      ListingSize(cs[0], depth);
      ListingAllSize(cs[1..], depth);
    }
  }

  /** Every visit in the listing is of a node of the tree, at a depth no
      smaller than the root's. */
  lemma {:induction false} ListingOccurs(n: Node, depth: nat)
    ensures forall v :: v in Listing(n, depth) ==> Occurs(v.node, n) && depth <= v.depth
    decreases n
  {
    ListingAllOccurs(n.children, depth + 1);
    forall v | v in Listing(n, depth)
      ensures Occurs(v.node, n) && depth <= v.depth
    {
      if v != Visit(n, depth) {
        assert v in ListingAll(n.children, depth + 1);
        var i :| 0 <= i < |n.children| && Occurs(v.node, n.children[i]) && depth + 1 <= v.depth;
      }
    }
  }

  lemma {:induction false} ListingAllOccurs(cs: seq<Node>, depth: nat)
    ensures forall v :: v in ListingAll(cs, depth) ==>
              depth <= v.depth && exists i :: 0 <= i < |cs| && Occurs(v.node, cs[i])
    decreases cs
  {
    if |cs| > 0 {
      ListingOccurs(cs[0], depth);
      ListingAllOccurs(cs[1..], depth);
      forall v | v in ListingAll(cs, depth)
        ensures depth <= v.depth && exists i :: 0 <= i < |cs| && Occurs(v.node, cs[i])
      {
        if v in Listing(cs[0], depth) {
          assert Occurs(v.node, cs[0]);
        } else {
          assert v in ListingAll(cs[1..], depth);
          var j :| 0 <= j < |cs[1..]| && Occurs(v.node, cs[1..][j]);
          assert Occurs(v.node, cs[j + 1]);
        }
      }
    }
  }

  /** No node is skipped: every node of the tree is listed, at some depth. */
  lemma {:induction false} ListedIfOccurs(m: Node, n: Node, depth: nat)
    requires Occurs(m, n)
    ensures exists d :: Visit(m, d) in Listing(n, depth)
    decreases n
  {
    if m == n {
      assert Listing(n, depth)[0] == Visit(m, depth);
    } else {
      var cs := n.children;
      var i :| 0 <= i < |cs| && Occurs(m, cs[i]);
      ListedIfOccurs(m, cs[i], depth + 1);
      var d :| Visit(m, d) in Listing(cs[i], depth + 1);
      ListingAllSplit(cs, depth + 1, i);
      assert Visit(m, d) in ListingAll(cs, depth + 1);
      assert Visit(m, d) in Listing(n, depth);
    }
  }

  /** The listing of a sequence of trees is the listing of its i-th tree
      framed by the listings of the trees before and after it. */
  lemma {:induction false} ListingAllSplit(cs: seq<Node>, depth: nat, i: nat)
    requires i < |cs|
    ensures ListingAll(cs, depth) == ListingAll(cs[..i], depth) + Listing(cs[i], depth) + ListingAll(cs[i + 1..], depth)
    decreases i
  {
    if i == 0 {
      assert cs[..0] == [];
      assert cs[1..] == cs[i + 1..];
    } else {
      ListingAllSplit(cs[1..], depth, i - 1);
      assert cs[1..][..i - 1] == cs[..i][1..];
      assert cs[1..][i - 1] == cs[i];
      assert cs[1..][i..] == cs[i + 1..];
      assert ListingAll(cs[..i], depth) == Listing(cs[0], depth) + ListingAll(cs[..i][1..], depth);
    }
  }

  /** Pre-order: the listing starts with the node itself, and the listing of
      child `i` is the contiguous block that follows the listings of the
      children before it. */
  lemma {:induction false} ListingPreOrder(n: Node, depth: nat, i: nat)
    requires i < |n.children|
    ensures Listing(n, depth)[0] == Visit(n, depth)
    ensures var start := 1 + SizeAll(n.children[..i]);
            start + Size(n.children[i]) <= |Listing(n, depth)| &&
            Listing(n, depth)[start..start + Size(n.children[i])] == Listing(n.children[i], depth + 1)
  {
    var cs := n.children;
    ListingAllSplit(cs, depth + 1, i);
    ListingAllSize(cs[..i], depth + 1);
    ListingSize(cs[i], depth + 1);
    var before := ListingAll(cs[..i], depth + 1);
    var mine := Listing(cs[i], depth + 1);
    var after := ListingAll(cs[i + 1..], depth + 1);
    assert Listing(n, depth) == [Visit(n, depth)] + before + mine + after;
    assert (([Visit(n, depth)] + before + mine + after)[1 + |before|..1 + |before| + |mine|]) == mine;
  }
}
