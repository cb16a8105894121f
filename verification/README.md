# spfx-recon analysis core in Dafny

This project models the analysis pipeline of `ReconApp` in spfx-recon. spfx-recon is a desktop
tool: you drop a TypeScript file on it and it reports the file's "shape" and a risk colour. The
pipeline has three parts:

- **The walk** (`traverse_and_review`). A recursive pre-order descent over the syntax tree. It
  counts function-like nodes (`method_definition`, `function_declaration`) and `if_statement`
  nodes. It sets two flags when a node's own source text contains an API marker
  (`spHttpClient`, `graphClient`) or a DOM marker (`document.`, `.innerHTML`). It also emits a
  preview line (two spaces per level, then the kind) for every node at depth < 5.
- **The risk rules.** Three rules run in order: API, then more than five decision points, then
  DOM. Every rule that fires adds its tag, and the last rule that fires sets the colour.
- **Report assembly.** The new report is inserted at index 0 of the result list.

The tree-sitter tree is abstracted as `Syntax.Node(kind, text, children)`. `text` is `None`
when `utf8_text` fails for that node. The Rust code threads five `&mut` accumulators through
the recursion. Here they are one immutable `Walker.State` record: `Walk` receives it and
returns the updated record.

Modules:

- `Text`: substring containment, matching Rust's `str::contains`. It is proved equal to "there
  is an index where the pattern occurs".
- `Syntax`: the node type, the kind and marker predicates, and tree-wide reference definitions
  that do not thread any state:
  - `Occurs`: a node lies somewhere in a tree.
  - `AnyNode`: some node in the tree satisfies a predicate.
  - `CountWhere`: the number of nodes whose kind satisfies a predicate.
  - `ShallowCount`: the number of nodes at a depth below a cut-off.
  - `Listing`: the pre-order listing of the tree, with each node's depth.
- `Walker`: the walk, and the structural-induction lemmas that tie it to the `Syntax`
  definitions.
- `Risk`: the rule fold and the colour/tag case table.
- `Reports`: the whole analysis of one file, and the insertion at the front of the result list.

## Model

| member | source | states |
|---|---|---|
| Text.Contains | src/main.rs:110-111 | containment holds iff the pattern occurs at some index of the text; the empty pattern is contained in every text |
| Syntax.ListingSize | src/main.rs:114-117 | the pre-order listing has exactly as many entries as the tree has nodes |
| Syntax.ListedIfOccurs | src/main.rs:114-117 | no node is skipped: every node of the tree appears in the listing, at some depth; with ListingSize, ListingOccurs and ListingPreOrder, the listing is the tree's nodes in pre-order, one entry per node position |
| Syntax.ListingPreOrder | src/main.rs:114-117 | the listing starts with the node itself; child i's listing is the contiguous block right after the listings of children 0..i-1, one level deeper |
| Syntax.ListingOccurs | src/main.rs:114-117 | every listed visit is of a node of the tree, at a depth no smaller than the root's |
| Walker.Indent | src/main.rs:102 | the indent for depth d is 2·d characters, all spaces |
| Walker.LineRoundTrip | src/main.rs:102 | a preview line can be read back: the leading-space count is twice the depth, and the kind follows it (for kinds that do not start with a space) |
| Walker.Emit | src/main.rs:100-103 | the preview step of one visit: counters and flags are untouched; at depth < 5 exactly one line, the node's kind indented by its depth, is appended after the existing lines; at depth 5 or deeper nothing changes |
| Walker.Observe | src/main.rs:105-112 | the per-node update. A counter goes up by one exactly when the kind matches. A flag ends up set iff it was set before or the node's recoverable text contains one of its two markers, so flags are never cleared and a node with no recoverable text sets no flag. The preview is untouched |
| Walker.Walk | src/main.rs:97-118 | the recursive walk: the node's preview line, then its counters and flags, then each child one level deeper. It has no contract of its own; Walker.WalkCounts, Walker.WalkFlags, Walker.WalkPreview and Walker.WalkMonotone state what it computes |
| Walker.WalkChildren | src/main.rs:114-117 | the loop over the children, left to right, threading the accumulators from one child to the next. It has no contract of its own; Walker.WalkChildrenCounts, Walker.WalkChildrenFlags and Walker.WalkChildrenPreview state what it computes |
| Walker.WalkCounts | src/main.rs:106-117 | after the walk, each counter is its starting value plus the number of matching nodes anywhere in the tree, at any depth |
| Walker.WalkChildrenCounts | src/main.rs:114-117 | walking the children in order adds, to each counter, the sum of the children's matching-node counts |
| Walker.WalkFlags | src/main.rs:109-117 | each flag is set after the walk iff it was set before, or some node with recoverable text contains one of its two markers |
| Walker.WalkChildrenFlags | src/main.rs:114-117 | after the children are walked, a flag is set iff it was set before or some child subtree has a marked node |
| Walker.WalkPreview | src/main.rs:101-117 | the walk appends exactly the rendered pre-order listing: one line per node at depth < 5, a node before its children, children left to right |
| Walker.WalkChildrenPreview | src/main.rs:114-117 | walking the children appends the rendered listings of the children, in order |
| Walker.PreviewLength | src/main.rs:101-103 | the number of preview lines equals the number of nodes at depth < 5, not the total node count |
| Walker.PreviewLengthAll | src/main.rs:101-117 | for a sequence of sibling subtrees, the number of preview lines equals the number of their nodes at depth < 5 |
| Walker.RenderOrigin | src/main.rs:101-103 | every rendered line is the indented kind of a visit in the listing at depth < 5 |
| Walker.PreviewLineOrigin | src/main.rs:101-103 | every line the walk appends is the indented kind of some node of the tree at depth < 5 |
| Walker.DeepSubtreeNotPreviewed | src/main.rs:101-107 | a subtree rooted at depth 5 or deeper adds no preview line, and its nodes are still fully counted |
| Walker.WalkMonotone | src/main.rs:97-118 | counters never decrease, flags are never reset, and the preview only grows at its end |
| Walker.UnreadableNodeStillWalked | src/main.rs:109-117 | a node whose text cannot be recovered sets no flag of its own, but it is still counted, gets its preview line, and its children are walked |
| Risk.Label | src/main.rs:83-85 | a tag's label is a non-empty word of capital letters and dashes (API-ACTIVE, COMPLEX-LOGIC, DOM-MANIPULATION); the emoji prefix of the source is not part of it |
| Risk.LabelInjective | src/main.rs:83-85 | distinct tags get distinct labels, so the summary's label list tells the fired rules apart |
| Risk.Rules | src/main.rs:83-85 | exactly three rules, in source order API, complexity, DOM: the first fires iff the API flag is set and sets Orange; the second fires iff ifs > 5 and sets Red; the third fires iff the DOM flag is set and sets Red; rule i carries the tag of rank i |
| Risk.Step | src/main.rs:83-85 | one `if`: a firing rule overwrites the colour with its own and appends its tag after the existing tags; a rule that does not fire leaves the verdict unchanged |
| Risk.Apply | src/main.rs:80-85 | tags are only ever appended, one per firing rule. The set of new tags is exactly the set of the firing rules' tags |
| Risk.LastApplicableWins | src/main.rs:80-85 | the colour is that of the last rule that fires, or the starting colour when no rule fires |
| Risk.Classify | src/main.rs:80-85 | Green iff no flag is set and ifs ≤ 5. Orange iff the API flag alone is set and ifs ≤ 5. Red iff ifs > 5 or the DOM flag is set. Each tag is present iff its rule fires. Tags appear in rule order, without repeats |
| Reports.Labels | src/main.rs:83-87 | the label list has one label per tag, in the same order; a tag's label appears iff the tag does |
| Reports.Analyze | src/main.rs:73-94 | the report for one tree. Its counts are the tree-wide function and decision counts. Its colour follows the case table over "some node carries an API/DOM marker" and the decision count. Its tag labels are the labels of a tag list in rule order without repeats, and a label is present iff its rule fires. Its preview is the rendered pre-order listing, and its length is the number of nodes at depth < 5 |
| Reports.Prepend | src/main.rs:89-94 | the new report is the first element; the earlier results follow unchanged and in order; the length grows by one |
| Reports.AnalyzeFile | src/main.rs:64-94 | the result list gains one element. Its head is the analysed file's report, so everything Reports.Analyze states holds of it. The previous results follow unchanged |

The rule order puts API first, then complexity, then DOM, and the last applicable rule sets the
colour. Both later rules set Red. So sequential last-write-wins gives the same colours as a
priority order DOM = complexity > API. `Risk.LastApplicableWins` states the sequential reading
for any rule list, and `Risk.Classify` states the resulting table.

## Left out

- The egui/eframe user interface (`main`, `ReconApp::update`, drag-and-drop, card rendering,
  src/main.rs:6-61): presentation and event handling.
- Parser construction and `parser.parse(..).unwrap()` (src/main.rs:65-69): tree-sitter is a
  foreign library. The syntax tree is an input, and the panic on a failed parse is not modelled.
- Reading the file with `unwrap_or_default` (src/main.rs:68), and the file name taken from the
  path (src/main.rs:90): these are I/O and OS-string handling. The file name is a parameter.
- How a node's text is recovered from byte offsets. Each node carries its own optional text,
  independent of its children's text. So the model allows more trees than tree-sitter can
  produce. In tree-sitter, a parent's span contains its children's spans.
- The `egui::Color32` RGB values: the colour is the three-value enum `Green | Orange | Red`.
- The exact text of the summary string: the `format!` layout and `{:?}` rendering, and the emoji
  prefixes on tags. The report carries the summary's three inputs: the tag labels, the function
  count and the decision count.
- The `i32` counters (src/main.rs:97) are modelled as unbounded naturals, so overflow after 2^31
  matching nodes is not modelled.
