# TreeSelects expand-all planner in Dafny

This project models the algorithmic part of the `TreeSelects` form field.
The field is a React wrapper around a tree-select widget. When its option
forest (`treeOptions`) arrives and the field's `isExpand` rule is on, it seeds
the widget's expanded-keys state. To do that, it walks the forest and writes
`key -> true` for every node that has a non-empty `children` list, descending
only through such internal nodes. The model also covers the small mapping from
the field's layout type to its three CSS class names.

Modules:

- `Tree` (`tree.dfy`): the option node `Node(key, children)`. It also defines an
  independent reference description of a forest: `Subtrees` collects every node
  at any depth, and `InternalKeys` collects the keys of the internal nodes.
- `Expansion` (`expansion.dfy`): the recursive walk `ExpandNode` and the ordered
  visit of a node sequence `ExpandEach`. The expand-all fold is
  `ExpandAll = ExpandEach(forest, map[])`. The central result states that
  visiting nodes overlays `true` on exactly the internal keys of their subtrees.
  There is one exception: the key `"__proto__"`. The map is a plain JavaScript
  object, and assigning `true` to that property reaches the prototype setter,
  which ignores it. The model reproduces this (`MarkExpanded`), so that key is
  never in the plan.
- `ExpandEffect` (`expand_effect.dfy`): the effect that runs the plan. It plans
  only when the options are present and `isExpand` (default `false`) is on.
  Otherwise the expanded-keys state is left unchanged. `Option` stands in for
  `undefined`.
- `FieldLayout` (`field_layout.dfy`): `getClassNames` as a function over a
  three-way layout type.

## Model

| member | source | states |
|---|---|---|
| Expansion.ExpandNode | TreeSelects.tsx:41-49 | visiting a node only inserts: every earlier key stays; every entry is either unchanged or `true`; an internal node's key (other than `"__proto__"`) ends up `true` |
| Expansion.ExpandEach | TreeSelects.tsx:45-47 | visiting a sequence of nodes in order only inserts; every entry is either unchanged or `true` |
| Expansion.MarkExpanded | TreeSelects.tsx:43 | writing a key adds it with value `true` and keeps every other entry, except that `"__proto__"` is dropped and the map is unchanged, as a plain object's prototype setter ignores `true` |
| Expansion.ExpandAll | TreeSelects.tsx:26-34 | the plan starts from an empty map; its keys are exactly the internal keys other than `"__proto__"`, and every value is `true` |
| Expansion.ExpandNodeExact | TreeSelects.tsx:41-49 | visiting a node adds exactly the keys of the internal nodes of its subtree (other than `"__proto__"`), each `true`, and leaves all other entries as they were |
| Expansion.ExpandEachExact | TreeSelects.tsx:45-47 | visiting a node sequence adds exactly the internal keys of all their subtrees (other than `"__proto__"`), each `true`, and leaves all other entries as they were |
| Expansion.ExpandAllExact | TreeSelects.tsx:26-34 | the expand-all plan is the all-`true` map over the keys of the internal nodes at any depth, except `"__proto__"` |
| Expansion.ExpandedIffInternal | TreeSelects.tsx:42-43 | a key is in the plan if and only if it is not `"__proto__"` and some node carrying it has a non-empty children list |
| Expansion.InternalRootExpanded | TreeSelects.tsx:29-30 | an internal root is expanded with value `true` (a root keyed `"__proto__"` is absent) |
| Expansion.InternalExpandedAtAnyDepth | TreeSelects.tsx:45-47 | an internal child of any node of the forest, at any depth, is expanded with value `true` (one keyed `"__proto__"` is absent) |
| Expansion.LeafNeverExpanded | TreeSelects.tsx:42 | when keys are unique, a leaf's key is never in the plan |
| Expansion.ExpandEachOverlaysPlan | TreeSelects.tsx:27-31 | folding over a forest from any starting map overlays the forest's plan on it, so the plan does not depend on the accumulator's history |
| Expansion.ExpandAllIdempotent | TreeSelects.tsx:26-34 | a corollary of the overlay property: running the walk again over its own result leaves it unchanged |
| Expansion.ExpandAllUnion | TreeSelects.tsx:29-31 | the plan of a concatenated forest is the union of the plans of its parts |
| Expansion.ExpandAllPerRoot | TreeSelects.tsx:29-31 | the plan is the first root's own plan from an empty map, joined with the plan of the remaining roots |
| Expansion.ExpandAllIgnoresRootOrder | TreeSelects.tsx:29-31 | the plan depends only on which roots are present, not on their order or repetition |
| Expansion.ExampleForestPlan | TreeSelects.tsx:26-49 | for the forest with root "1" (leaf children "1-1" and "1-2") and leaf root "2", the plan is `{"1": true}` |
| Tree.RootsInSubtrees | TreeSelects.tsx:29-30 | every root is a node of the forest |
| Tree.SubtreesClosed | TreeSelects.tsx:45-47 | the forest's nodes are closed under taking children |
| ExpandEffect.IsExpand | TreeSelects.tsx:16 | `isExpand` counts as on only when explicitly set to true; unset defaults to off |
| ExpandEffect.OnTreeOptions | TreeSelects.tsx:24-38 | with options absent or `isExpand` off, the expanded-keys state is unchanged; otherwise it becomes a map whose keys are exactly the internal keys other than `"__proto__"`, all `true` |
| ExpandEffect.DefaultRulesNeverExpand | TreeSelects.tsx:12-37 | with default rules and the initial unset state, the state stays unset whatever options arrive |
| ExpandEffect.PlanReplacesState | TreeSelects.tsx:27-33 | when the effect plans, the new state replaces the old wholesale and is the all-true map over the internal keys other than `"__proto__"` |
| FieldLayout.GetClassNames | TreeSelects.tsx:51-75 | `NO_LABEL` and `TOP_LABEL` get `("", "field p-fluid", "")`; every other type gets the grid triple; the label class is empty exactly for the stacked layouts |
| FieldLayout.SameClassesIffSameLayout | TreeSelects.tsx:56-72 | two layout types get the same class triple if and only if both are stacked or both are not |

## Left out

- Missing versus empty `children`: both are modelled as an empty sequence, because the guard at TreeSelects.tsx:42 treats them alike.
- Key coercion: JavaScript turns `node.key` into a property name, so a missing key becomes `"undefined"`. Keys are modelled as strings directly.
- Missing entries: a `null` or `undefined` entry in `treeOptions` or in a `children` list makes `node.children` (TreeSelects.tsx:42) throw a TypeError inside the effect. `Node` cannot represent such an entry, so the model has no error path for it.
- Cyclic or very deep option graphs: the recursion at TreeSelects.tsx:45-47 then exhausts the call stack and throws a RangeError. The datatype is finite and well-founded, and the model has no stack bound, so neither failure is represented.
- React plumbing: `useState`, and the `useEffect` dependency list that re-runs the effect only when `treeOptions` changes (TreeSelects.tsx:12-13, 39). The effect is modelled as one function from the options, the rules and the previous state to the next state.
- Manual expand/collapse: `onToggle` writing the widget's expanded keys back into state (TreeSelects.tsx:105) is widget behaviour outside this code.
- Selection: no selection state exists in this code. It belongs to the external widget (TreeSelects.tsx:95-111). The flags `showMarkAllHeader`, `isSetCustomIcon` and `customIcon` in TreeSelects.model.ts are declared but have no behaviour.
- Form wiring through `Controller` and the validator helper `inputValidator`: both are foreign code (TreeSelects.tsx:90-93).
- Translation lookup for the placeholder (TreeSelects.tsx:21-22).
- JSX rendering, the required-field asterisk, and error display (TreeSelects.tsx:78-117).
- FieldLayout.GetClassNames: `IFormFieldType` is defined outside this code. Every value other than `NO_LABEL` and `TOP_LABEL`, including an unset one, is merged into the single case `OtherLayout`.
