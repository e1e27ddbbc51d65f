/**
 The CSS classes of the tree-select field's label, wrapper and inner
 container, chosen by the field's layout type.
 */
module FieldLayout {

  /** The field's layout type: no label, label on top, or any other value
      (including an unset one), which lays the label out in a grid column. */
  datatype FieldType = NoLabel | TopLabel | OtherLayout

  datatype ClassNames = ClassNames(labelClassName: string, fieldClassName: string, divClassName: string)

  /** The stacked layouts: the control spans the full width, with no grid column. */
  predicate Stacked(ft: FieldType)
  {
    ft == NoLabel || ft == TopLabel
  }

  const StackedClasses := ClassNames("", "field p-fluid", "")
  const GridClasses := ClassNames("col-12 mb-3 md:col-3 md:mb-0", "field grid", "col-12 md:col-9 relative")

  /** The class triple for a layout type. */
  function GetClassNames(ft: FieldType): (r: ClassNames)
    ensures Stacked(ft) ==> r == StackedClasses
    ensures !Stacked(ft) ==> r == GridClasses
    ensures r.labelClassName == "" <==> Stacked(ft)
  {
    match ft
    case NoLabel => ClassNames("", "field p-fluid", "")
    case TopLabel => ClassNames("", "field p-fluid", "")
    case OtherLayout => ClassNames("col-12 mb-3 md:col-3 md:mb-0", "field grid", "col-12 md:col-9 relative")
  }

  /** Two layout types get the same classes exactly when both are stacked or
      both are not. */
  lemma SameClassesIffSameLayout(a: FieldType, b: FieldType)
    ensures GetClassNames(a) == GetClassNames(b) <==> (Stacked(a) <==> Stacked(b))
  {
  }
}
