/** The risk classification of `ReconApp::analyze_file`: three rules,
    evaluated in order over the walk's signals; every rule that fires adds
    its tag, and the last one that fires decides the colour. */
module Risk {
  import opened Walker

  /** The severity colours. */
  datatype Color = Green | Orange | Red

  /** The tags a rule can add. */
  datatype Tag = ApiActive | ComplexLogic | DomManipulation

  /** The tag's label in the summary line, without the emoji prefix: a
      non-empty word of capital letters and dashes. */
  function Label(t: Tag): (r: string)
    ensures |r| > 0
    ensures forall i :: 0 <= i < |r| ==> 'A' <= r[i] <= 'Z' || r[i] == '-'
  {
    match t
    case ApiActive => "API-ACTIVE"
    case ComplexLogic => "COMPLEX-LOGIC"
    case DomManipulation => "DOM-MANIPULATION"
  }

  /** Distinct tags get distinct labels. */
  lemma LabelInjective()
    ensures forall t, u :: Label(t) == Label(u) ==> t == u
  {
    assert Label(ApiActive)[0] == 'A' && Label(ComplexLogic)[0] == 'C' && Label(DomManipulation)[0] == 'D';
  }

  /** Position of a tag's rule in the rule order. */
  function Rank(t: Tag): nat
  {
    match t
    case ApiActive => 0
    case ComplexLogic => 1
    case DomManipulation => 2
  }

  /** More decision points than this make a file complex. */
  const DecisionLimit: nat := 5

  /** A rule: whether it fires, and the colour and tag it then sets. */
  datatype Rule = Rule(fires: bool, color: Color, tag: Tag)

  datatype Verdict = Verdict(color: Color, tags: seq<Tag>)

  /** The verdict before any rule is applied. */
  const Default: Verdict := Verdict(Green, [])

  /** The three rules, in the order they are evaluated. */
  function Rules(s: State): (r: seq<Rule>)
    ensures |r| == 3
    ensures forall i :: 0 <= i < |r| ==> Rank(r[i].tag) == i
    ensures r[0].fires == s.api && r[0].color == Orange
    ensures r[1].fires == (s.ifs > DecisionLimit) && r[1].color == Red
    ensures r[2].fires == s.dom && r[2].color == Red
  {
    [ Rule(s.api, Orange, ApiActive),
      Rule(s.ifs > DecisionLimit, Red, ComplexLogic),
      Rule(s.dom, Red, DomManipulation) ]
  }

  /** One rule: when it fires it sets the colour and appends its tag;
      otherwise the verdict is unchanged. */
  function Step(r: Rule, v: Verdict): (w: Verdict)
    ensures r.fires ==> w.color == r.color && w.tags == v.tags + [r.tag]
    ensures !r.fires ==> w == v
  {
    if r.fires then Verdict(r.color, v.tags + [r.tag]) else v
  }

  /** Number of rules that fire. */
  function FiredCount(rules: seq<Rule>): nat
  {
    if |rules| == 0 then 0 else (if rules[0].fires then 1 else 0) + FiredCount(rules[1..])
  }

  /** Applies the rules in order to `v`. Tags are only ever appended, one per
      firing rule. */
  function Apply(rules: seq<Rule>, v: Verdict): (r: Verdict)
    ensures |v.tags| <= |r.tags| && r.tags[..|v.tags|] == v.tags
    ensures |r.tags| == |v.tags| + FiredCount(rules)
    ensures forall t :: t in r.tags[|v.tags|..] <==> exists i :: 0 <= i < |rules| && rules[i].fires && rules[i].tag == t
    decreases |rules|
  {
    if |rules| == 0 then v
    else
      var r := Apply(rules[1..], Step(rules[0], v));
      assert forall i :: 0 < i < |rules| ==> rules[i] == rules[1..][i - 1];
      assert forall t :: t in r.tags[|v.tags|..] <==> t in Step(rules[0], v).tags[|v.tags|..] || t in r.tags[|Step(rules[0], v).tags|..];
      r
  }

  /** Last applicable rule wins: the colour is the colour of the last rule
      that fires, or the starting colour when none fires. */
  lemma {:induction false} LastApplicableWins(rules: seq<Rule>, v: Verdict)
    ensures (forall i :: 0 <= i < |rules| ==> !rules[i].fires) ==> Apply(rules, v).color == v.color
    ensures forall i :: 0 <= i < |rules| && rules[i].fires && (forall j :: i < j < |rules| ==> !rules[j].fires) ==>
              Apply(rules, v).color == rules[i].color
    decreases |rules|
  {
    if |rules| > 0 {
      LastApplicableWins(rules[1..], Step(rules[0], v));
      assert forall j :: 0 < j < |rules| ==> rules[j] == rules[1..][j - 1];
    }
  }

  /** Applying three rules is stepping through them one after the other. */
  lemma ApplyThree(r0: Rule, r1: Rule, r2: Rule, v: Verdict)
    ensures Apply([r0, r1, r2], v) == Step(r2, Step(r1, Step(r0, v)))
  {
    assert [r0, r1, r2][1..] == [r1, r2];
    assert [r1, r2][1..] == [r2];
    assert [r2][1..] == [];
    var v1 := Step(r0, v);
    var v2 := Step(r1, v1);
    assert Apply([r2], v2) == Apply([], Step(r2, v2));
    assert Apply([r1, r2], v1) == Apply([r2], v2);
    assert Apply([r0, r1, r2], v) == Apply([r1, r2], v1);
  }

  /** Tags appear in rule order, each at most once. */
  ghost predicate InRuleOrder(tags: seq<Tag>)
  {
    forall i, j :: 0 <= i < j < |tags| ==> Rank(tags[i]) < Rank(tags[j])
  }

  /** The case table for the three rules stepped through in order from the
      default verdict. */
  lemma RuleTable(s: State)
    ensures var v := Step(Rules(s)[2], Step(Rules(s)[1], Step(Rules(s)[0], Default)));
            && (v.color == Green <==> !s.api && s.ifs <= DecisionLimit && !s.dom)
            && (v.color == Orange <==> s.api && s.ifs <= DecisionLimit && !s.dom)
            && (v.color == Red <==> s.ifs > DecisionLimit || s.dom)
            && (ApiActive in v.tags <==> s.api) && (ComplexLogic in v.tags <==> s.ifs > DecisionLimit)
            && (DomManipulation in v.tags <==> s.dom)
            && InRuleOrder(v.tags)
  {
  }

  /** The classifier: a closed case table over the API flag, the decision
      count and the DOM flag. */
  function Classify(s: State): (v: Verdict)
    ensures v.color == Green <==> !s.api && s.ifs <= DecisionLimit && !s.dom
    ensures v.color == Orange <==> s.api && s.ifs <= DecisionLimit && !s.dom
    ensures v.color == Red <==> s.ifs > DecisionLimit || s.dom
    ensures (ApiActive in v.tags <==> s.api) && (ComplexLogic in v.tags <==> s.ifs > DecisionLimit)
    ensures DomManipulation in v.tags <==> s.dom
    ensures InRuleOrder(v.tags)
  {
    var rules := Rules(s);
    assert rules == [rules[0], rules[1], rules[2]];
    ApplyThree(rules[0], rules[1], rules[2], Default);
    RuleTable(s);
    Apply(rules, Default)
  }
}
