/**
 The effect that seeds the field's expanded-keys state when the option
 forest arrives: it plans an expand-all only when the options are present
 and the field's `isExpand` rule is on.
 */
module ExpandEffect {
  import opened Tree
  import opened Expansion

  /** An optional value, standing in for JavaScript's `undefined`. */
  datatype Option<T> = None | Some(value: T)

  /** The field rule read by the effect; `isExpand` may be left unset. */
  datatype Rules = Rules(isExpand: Option<bool>)

  /** `isExpand` with its default: an unset rule means "do not expand". */
  function IsExpand(rules: Rules): (b: bool)
    ensures b <==> rules.isExpand == Some(true)
  {
    match rules.isExpand
    case Some(b) => b
    case None => false
  }

  /** The expanded-keys state after the effect runs for `treeOptions`.
      `None` options stand for missing ones; an empty forest is present and
      still yields an (empty) plan. `expandedKeys` is the state before the
      effect, `None` while it has never been set. */
  function OnTreeOptions(treeOptions: Option<seq<Node>>, rules: Rules,
                         expandedKeys: Option<ExpansionMap>): (r: Option<ExpansionMap>)
    ensures treeOptions.None? || !IsExpand(rules) ==> r == expandedKeys
    ensures treeOptions.Some? && IsExpand(rules) ==>
              && r.Some?
              && r.value.Keys == InternalKeys(treeOptions.value) - {ProtoKey}
              && forall k :: k in r.value ==> r.value[k]
  {
    if treeOptions.Some? then
      if IsExpand(rules) then
        Some(ExpandAll(treeOptions.value))
      else expandedKeys
    else expandedKeys
  }

  /** With the default rules the field never expands anything: the state
      stays unset whatever options arrive. */
  lemma DefaultRulesNeverExpand(treeOptions: Option<seq<Node>>)
    ensures OnTreeOptions(treeOptions, Rules(None), None) == None
  {
  }

  /** When the effect plans, its result replaces the earlier state wholesale:
      it is the same whatever the state was before. */
  lemma PlanReplacesState(forest: seq<Node>, rules: Rules,
                          before1: Option<ExpansionMap>, before2: Option<ExpansionMap>)
    requires IsExpand(rules)
    ensures OnTreeOptions(Some(forest), rules, before1) == OnTreeOptions(Some(forest), rules, before2)
    ensures OnTreeOptions(Some(forest), rules, before1) == Some(AllTrue(InternalKeys(forest) - {ProtoKey}))
  {
    ExpandAllExact(forest);
  }
}
