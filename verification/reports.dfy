/** Report assembly in `ReconApp::analyze_file`: walk the tree from depth 0
    with fresh accumulators, classify the signals, and insert the report at
    the front of the result list. */
module Reports {
  import opened Syntax
  import opened Walker
  import opened Risk

  /** What the summary line is built from: the tag labels, the function
      count and the decision count. */
  datatype Summary = Summary(tags: seq<string>, methods: nat, decisions: nat)

  datatype Report = Report(filename: string, color: Color, summary: Summary, preview: seq<string>)

  function Labels(tags: seq<Tag>): (r: seq<string>)
    ensures |r| == |tags|
    ensures forall i :: 0 <= i < |tags| ==> r[i] == Label(tags[i])
    ensures forall t :: Label(t) in r <==> t in tags
  {
    LabelInjective();
    if |tags| == 0 then [] else [Label(tags[0])] + Labels(tags[1..])
  }

  /** What the walk from the root, at depth 0 with fresh accumulators, yields. */
  lemma WalkFromRoot(root: Node)
    ensures var s := Walk(root, 0, Initial);
            && s.funcs == CountWhere(root, IsFunctionLike)
            && s.ifs == CountWhere(root, IsDecision)
            && (s.api <==> AnyNode(root, ApiSignal))
            && (s.dom <==> AnyNode(root, DomSignal))
            && s.preview == Render(Listing(root, 0))
            && |s.preview| == ShallowCount(root, 0, PreviewDepth)
  {
    WalkCounts(root, 0, Initial);
    WalkFlags(root, 0, Initial);
    WalkPreview(root, 0, Initial);
    PreviewLength(root, 0);
  }

  /** Analyses one file whose syntax tree is rooted at `root`. */
  function Analyze(filename: string, root: Node): (r: Report)
    ensures r.filename == filename
    ensures r.summary.methods == CountWhere(root, IsFunctionLike)
    ensures r.summary.decisions == CountWhere(root, IsDecision)
    ensures r.color == Green <==>
              !AnyNode(root, ApiSignal) && CountWhere(root, IsDecision) <= DecisionLimit && !AnyNode(root, DomSignal)
    ensures r.color == Orange <==>
              AnyNode(root, ApiSignal) && CountWhere(root, IsDecision) <= DecisionLimit && !AnyNode(root, DomSignal)
    ensures r.color == Red <==> CountWhere(root, IsDecision) > DecisionLimit || AnyNode(root, DomSignal)
    ensures Label(ApiActive) in r.summary.tags <==> AnyNode(root, ApiSignal)
    ensures Label(ComplexLogic) in r.summary.tags <==> CountWhere(root, IsDecision) > DecisionLimit
    ensures Label(DomManipulation) in r.summary.tags <==> AnyNode(root, DomSignal)
    ensures exists tags: seq<Tag> :: InRuleOrder(tags) && r.summary.tags == Labels(tags)
    ensures r.preview == Render(Listing(root, 0))
    ensures |r.preview| == ShallowCount(root, 0, PreviewDepth)
  {
    var s := Walk(root, 0, Initial);
    WalkFromRoot(root);
    var v := Classify(s);
    var labels := Labels(v.tags);
    assert InRuleOrder(v.tags) && labels == Labels(v.tags);
    Report(filename, v.color, Summary(labels, s.funcs, s.ifs), s.preview)
  }

  /** Inserts a report at index 0: it becomes the first element, and the
      earlier results follow unchanged. */
  function Prepend(report: Report, results: seq<Report>): (out: seq<Report>)
    ensures |out| == |results| + 1
    ensures out[0] == report
    ensures out[1..] == results
  {
    [report] + results
  }

  /** Analyses one file and records its report, most recent first. */
  function AnalyzeFile(results: seq<Report>, filename: string, root: Node): (out: seq<Report>)
    ensures |out| == |results| + 1
    ensures out[0] == Analyze(filename, root)
    // Corollaries of the clause above, kept for readers.
    ensures out[0].filename == filename
    ensures out[0].summary.methods == CountWhere(root, IsFunctionLike)
    ensures out[0].summary.decisions == CountWhere(root, IsDecision)
    ensures out[1..] == results
  {
    Prepend(Analyze(filename, root), results)
  }
}
