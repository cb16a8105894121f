/** The recursive pre-order walk of `ReconApp::traverse_and_review`: it
    emits a depth-bounded preview of the tree shape and collects signals
    (function and decision counts, API and DOM marker flags) into a state
    record threaded through the recursion. */
module Walker {
  import opened Syntax

  /** The accumulators the walk threads through the recursion. */
  datatype State = State(funcs: nat, ifs: nat, api: bool, dom: bool, preview: seq<string>)

  /** The state a fresh analysis starts from. */
  const Initial: State := State(0, 0, false, false, [])

  /** Nodes at this depth or deeper are walked but not previewed. */
  const PreviewDepth: nat := 5

  /** One indentation unit per level of depth, two spaces each. */
  function Indent(depth: nat): (r: string)
    ensures |r| == 2 * depth
    ensures forall i :: 0 <= i < |r| ==> r[i] == ' '
  {
    if depth == 0 then "" else "  " + Indent(depth - 1)
  }

  /** The preview line of a node of kind `kind` at depth `depth`. */
  function Line(depth: nat, kind: string): string
  {
    Indent(depth) + kind
  }

  /** Number of leading spaces of a line. */
  function LeadingSpaces(s: string): (k: nat)
    ensures k <= |s|
    ensures forall i :: 0 <= i < k ==> s[i] == ' '
    ensures k < |s| ==> s[k] != ' '
  {
    if |s| == 0 || s[0] != ' ' then 0 else 1 + LeadingSpaces(s[1..])
  }

  /** A preview line can be read back: its depth is half its indentation
      and the kind is what follows it, as long as the kind itself does not
      start with a space. */
  lemma LineRoundTrip(depth: nat, kind: string)
    requires |kind| == 0 || kind[0] != ' '
    ensures LeadingSpaces(Line(depth, kind)) == 2 * depth
    ensures Line(depth, kind)[2 * depth..] == kind
  {
    var line := Line(depth, kind);
    assert forall i :: 0 <= i < 2 * depth ==> line[i] == Indent(depth)[i];
    if |kind| > 0 {
      assert line[2 * depth] == kind[0];
    }
  }

  /** The signal collector for one node: the kind counters and, when the
      node's text can be recovered, the marker flags. */
  function Observe(n: Node, s: State): (r: State)
    ensures r.preview == s.preview
    ensures r.funcs == s.funcs + 1 <==> IsFunctionLike(n.kind)
    ensures r.ifs == s.ifs + 1 <==> IsDecision(n.kind)
    ensures s.funcs <= r.funcs <= s.funcs + 1 && s.ifs <= r.ifs <= s.ifs + 1
    ensures (r.api <==> s.api || ApiSignal(n)) && (r.dom <==> s.dom || DomSignal(n))
    // Corollary of the clause above, kept for readers: a node whose text
    // cannot be read sets no flag.
    ensures n.text.None? ==> r.api == s.api && r.dom == s.dom
  {
    State(s.funcs + (if IsFunctionLike(n.kind) then 1 else 0),
          s.ifs + (if IsDecision(n.kind) then 1 else 0),
          s.api || ApiSignal(n),
          s.dom || DomSignal(n),
          s.preview)
  }

  /** Appends the node's preview line when it is shallow enough. */
  function Emit(n: Node, depth: nat, s: State): (r: State)
    ensures r.funcs == s.funcs && r.ifs == s.ifs && r.api == s.api && r.dom == s.dom
    ensures |s.preview| <= |r.preview| && r.preview[..|s.preview|] == s.preview
    ensures depth < PreviewDepth ==> r.preview[|s.preview|..] == [Line(depth, n.kind)]
    ensures depth >= PreviewDepth ==> r.preview == s.preview
  {
    if depth < PreviewDepth then s.(preview := s.preview + [Line(depth, n.kind)]) else s
  }

  /** Visits `n` at `depth`: preview line, signals, then the children at
      `depth + 1`, left to right. */
  function Walk(n: Node, depth: nat, s: State): State
    decreases n
  {
    WalkChildren(n.children, depth + 1, Observe(n, Emit(n, depth, s)))
  }

  /** Walks the trees `cs` in order, all at `depth`. */
  function WalkChildren(cs: seq<Node>, depth: nat, s: State): State
    decreases cs
  {
    if |cs| == 0 then s else WalkChildren(cs[1..], depth, Walk(cs[0], depth, s))
  }

  /** The preview lines of a listing: one line per visit at a depth below the cut-off, in order. */
  function Render(vs: seq<Visit>): seq<string>
  {
    if |vs| == 0 then []
    else (if vs[0].depth < PreviewDepth then [Line(vs[0].depth, vs[0].node.kind)] else []) + Render(vs[1..])
  }

  lemma {:induction false} RenderAppend(a: seq<Visit>, b: seq<Visit>)
    ensures Render(a + b) == Render(a) + Render(b)
    decreases |a|
  {
    if |a| > 0 {
      assert (a + b)[0] == a[0];
      assert (a + b)[1..] == a[1..] + b;
      RenderAppend(a[1..], b);
      var head := if a[0].depth < PreviewDepth then [Line(a[0].depth, a[0].node.kind)] else [];
      assert Render(a + b) == head + (Render(a[1..]) + Render(b));
      assert Render(a) == head + Render(a[1..]);
    } else {
      assert a + b == b;
    }
  }

  /** Both counters grow by exactly the number of matching nodes of the
      whole tree, whatever their depth. */
  lemma {:induction false} WalkCounts(n: Node, depth: nat, s: State)
    ensures Walk(n, depth, s).funcs == s.funcs + CountWhere(n, IsFunctionLike)
    ensures Walk(n, depth, s).ifs == s.ifs + CountWhere(n, IsDecision)
    decreases n
  {
    WalkChildrenCounts(n.children, depth + 1, Observe(n, Emit(n, depth, s)));
  }

  lemma {:induction false} WalkChildrenCounts(cs: seq<Node>, depth: nat, s: State)
    ensures WalkChildren(cs, depth, s).funcs == s.funcs + CountWhereAll(cs, IsFunctionLike)
    ensures WalkChildren(cs, depth, s).ifs == s.ifs + CountWhereAll(cs, IsDecision)
    decreases cs
  {
    if |cs| > 0 {
      WalkCounts(cs[0], depth, s);
      WalkChildrenCounts(cs[1..], depth, Walk(cs[0], depth, s));
    }
  }

  /** A flag ends up set iff it was set before or some node of the tree
      (with recoverable text) carries one of its markers. */
  lemma {:induction false} WalkFlags(n: Node, depth: nat, s: State)
    ensures Walk(n, depth, s).api <==> s.api || AnyNode(n, ApiSignal)
    ensures Walk(n, depth, s).dom <==> s.dom || AnyNode(n, DomSignal)
    decreases n
  {
    WalkChildrenFlags(n.children, depth + 1, Observe(n, Emit(n, depth, s)));
    AnyNodeUnfold(n, ApiSignal);
    AnyNodeUnfold(n, DomSignal);
  }

  lemma {:induction false} WalkChildrenFlags(cs: seq<Node>, depth: nat, s: State)
    ensures WalkChildren(cs, depth, s).api <==> s.api || AnyNodeIn(cs, ApiSignal)
    ensures WalkChildren(cs, depth, s).dom <==> s.dom || AnyNodeIn(cs, DomSignal)
    decreases cs
  {
    AnyNodeInUnfold(cs, ApiSignal);
    AnyNodeInUnfold(cs, DomSignal);
    if |cs| > 0 {
      WalkFlags(cs[0], depth, s);
      WalkChildrenFlags(cs[1..], depth, Walk(cs[0], depth, s));
    }
  }

  /** One step of the walk: the node's own visit, then its children. */
  lemma WalkUnfold(n: Node, depth: nat, s: State)
    ensures Walk(n, depth, s) == WalkChildren(n.children, depth + 1, Observe(n, Emit(n, depth, s)))
    ensures Listing(n, depth) == [Visit(n, depth)] + ListingAll(n.children, depth + 1)
  {
  }

  /** Visiting one node adds the rendering of that node's own visit. */
  lemma OwnPreview(n: Node, depth: nat, s: State)
    ensures Observe(n, Emit(n, depth, s)).preview == s.preview + Render([Visit(n, depth)])
  {
    assert Render([Visit(n, depth)][1..]) == [];
  }

  /** The walk appends exactly the rendering of the pre-order listing of the
      tree: one line per node at depth < 5, node before children,
      children left to right. */
  lemma {:induction false} WalkPreview(n: Node, depth: nat, s: State)
    ensures Walk(n, depth, s).preview == s.preview + Render(Listing(n, depth))
    decreases n
  {
    var s1 := Observe(n, Emit(n, depth, s));
    var own := [Visit(n, depth)];
    var below := ListingAll(n.children, depth + 1);
    WalkUnfold(n, depth, s);
    OwnPreview(n, depth, s);
    WalkChildrenPreview(n.children, depth + 1, s1);
    RenderAppend(own, below);
  }

  lemma {:induction false} WalkChildrenPreview(cs: seq<Node>, depth: nat, s: State)
    ensures WalkChildren(cs, depth, s).preview == s.preview + Render(ListingAll(cs, depth))
    decreases cs
  {
    if |cs| > 0 {
      WalkPreview(cs[0], depth, s);
      WalkChildrenPreview(cs[1..], depth, Walk(cs[0], depth, s));
      RenderAppend(Listing(cs[0], depth), ListingAll(cs[1..], depth));
    }
  }

  /** The number of lines the walk appends is the number of nodes at depth
      < 5, not the number of nodes. */
  lemma {:induction false} PreviewLength(n: Node, depth: nat)
    ensures |Render(Listing(n, depth))| == ShallowCount(n, depth, PreviewDepth)
    decreases n
  {
    PreviewLengthAll(n.children, depth + 1);
    RenderAppend([Visit(n, depth)], ListingAll(n.children, depth + 1));
  }

  lemma {:induction false} PreviewLengthAll(cs: seq<Node>, depth: nat)
    ensures |Render(ListingAll(cs, depth))| == ShallowCountAll(cs, depth, PreviewDepth)
    decreases cs
  {
    if |cs| > 0 {
      PreviewLength(cs[0], depth);
      PreviewLengthAll(cs[1..], depth);
      RenderAppend(Listing(cs[0], depth), ListingAll(cs[1..], depth));
    }
  }

  /** Every rendered line is the line of some listed visit at depth < 5. */
  lemma {:induction false} RenderOrigin(vs: seq<Visit>)
    ensures forall j :: 0 <= j < |Render(vs)| ==>
              exists v :: v in vs && v.depth < PreviewDepth && Render(vs)[j] == Line(v.depth, v.node.kind)
    decreases |vs|
  {
    if |vs| > 0 {
      RenderOrigin(vs[1..]);
      var head := if vs[0].depth < PreviewDepth then [Line(vs[0].depth, vs[0].node.kind)] else [];
      forall j | 0 <= j < |Render(vs)|
        ensures exists v :: v in vs && v.depth < PreviewDepth && Render(vs)[j] == Line(v.depth, v.node.kind)
      {
        if j < |head| {
          assert Render(vs)[j] == Line(vs[0].depth, vs[0].node.kind);
        } else {
          assert Render(vs)[j] == Render(vs[1..])[j - |head|];
          var v :| v in vs[1..] && v.depth < PreviewDepth && Render(vs[1..])[j - |head|] == Line(v.depth, v.node.kind);
          assert v in vs;
        }
      }
    } else {
      assert Render(vs) == [];
    }
  }

  /** A listing whose visits all lie at or below the cut-off renders to nothing. */
  lemma {:induction false} RenderDeep(vs: seq<Visit>)
    requires forall v :: v in vs ==> v.depth >= PreviewDepth
    ensures Render(vs) == []
    decreases |vs|
  {
    if |vs| > 0 {
      assert vs[0] in vs;
      assert forall v :: v in vs[1..] ==> v in vs;
      RenderDeep(vs[1..]);
    }
  }

  /** `line` is the preview line of some node of the tree rooted at `n`
      (at `depth`) that lies at depth < 5. */
  ghost predicate LineOfShallowNode(line: string, n: Node, depth: nat)
  {
    exists v: Visit :: v in Listing(n, depth) && Occurs(v.node, n) && depth <= v.depth < PreviewDepth &&
      line == Line(v.depth, v.node.kind)
  }

  /** Every line the walk appends is the indented kind of a node of the tree
      at depth < 5. */
  lemma PreviewLineOrigin(n: Node, depth: nat, s: State)
    ensures forall j :: |s.preview| <= j < |Walk(n, depth, s).preview| ==>
              LineOfShallowNode(Walk(n, depth, s).preview[j], n, depth)
  {
    WalkPreview(n, depth, s);
    ListingOccurs(n, depth);
    var added := Render(Listing(n, depth));
    RenderOrigin(Listing(n, depth));
    forall j | |s.preview| <= j < |Walk(n, depth, s).preview|
      ensures LineOfShallowNode(Walk(n, depth, s).preview[j], n, depth)
    {
      assert Walk(n, depth, s).preview[j] == added[j - |s.preview|];
    }
  }

  /** A subtree rooted at or below the cut-off adds no preview line, while
      its nodes are still counted. */
  lemma DeepSubtreeNotPreviewed(n: Node, depth: nat, s: State)
    requires depth >= PreviewDepth
    ensures Walk(n, depth, s).preview == s.preview
    ensures Walk(n, depth, s).funcs == s.funcs + CountWhere(n, IsFunctionLike)
    ensures Walk(n, depth, s).ifs == s.ifs + CountWhere(n, IsDecision)
  {
    WalkPreview(n, depth, s);
    WalkCounts(n, depth, s);
    ListingOccurs(n, depth);
    RenderDeep(Listing(n, depth));
  }

  /** Nothing the walk accumulated is ever lost: counters do not decrease,
      flags are never reset, and the preview only grows at its end. */
  lemma WalkMonotone(n: Node, depth: nat, s: State)
    ensures s.funcs <= Walk(n, depth, s).funcs && s.ifs <= Walk(n, depth, s).ifs
    ensures (s.api ==> Walk(n, depth, s).api) && (s.dom ==> Walk(n, depth, s).dom)
    ensures s.preview <= Walk(n, depth, s).preview
  {
    WalkCounts(n, depth, s);
    WalkFlags(n, depth, s);
    WalkPreview(n, depth, s);
  }

  /** A node whose text cannot be recovered sets no flag of its own, but it
      is still counted, previewed and descended into. */
  lemma UnreadableNodeStillWalked(kind: string, children: seq<Node>, depth: nat, s: State)
    ensures var n := Node(kind, None, children);
            var r := Walk(n, depth, s);
            && (r.api <==> s.api || AnyNodeIn(children, ApiSignal))
            && (r.dom <==> s.dom || AnyNodeIn(children, DomSignal))
            && r.funcs == s.funcs + CountWhere(n, IsFunctionLike)
            && r.ifs == s.ifs + CountWhere(n, IsDecision)
            && (depth < PreviewDepth ==> |r.preview| > |s.preview| && r.preview[|s.preview|] == Line(depth, kind))
  {
    var n := Node(kind, None, children);
    WalkFlags(n, depth, s);
    WalkCounts(n, depth, s);
    WalkPreview(n, depth, s);
    AnyNodeUnfold(n, ApiSignal);
    AnyNodeUnfold(n, DomSignal);
    RenderAppend([Visit(n, depth)], ListingAll(children, depth + 1));
  }
}
