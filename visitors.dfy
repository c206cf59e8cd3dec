/** `ToArrowVisitor` (`lance/format/visitors.cc`): it turns the direct children of a
    field into Arrow fields, appending them to a list it keeps between visits. */
module Visitors {
  import opened Wrappers
  import opened ArrowType
  import opened LanceSchema

  /** `ToArrowVisitor::DoVisit`: an Arrow field with the node's name and Arrow type. It
      does not fail, and it does not visit the node's children on its own. */
  function DoVisit(node: Field): (r: Result<ArrowField>)
    ensures r.Ok? && r.value.name == node.name && r.value.dtype == TypeOf(node)
  {
    Ok(ToArrowField(node))
  }

  /** What one visit of a field with these children produces, when each child is turned
      into an Arrow field by `visit`: the fields produced before the first failure, and
      that failure (or Pass when there is none). */
  function VisitAll(children: seq<Field>, visit: Field -> Result<ArrowField>): (r: (Outcome, seq<ArrowField>))
    ensures |r.1| <= |children|
    ensures forall j :: 0 <= j < |r.1| ==> visit(children[j]) == Ok(r.1[j])
    ensures r.0.Pass? <==> forall j :: 0 <= j < |children| ==> visit(children[j]).Ok?
    ensures r.0.Pass? ==> |r.1| == |children|
    ensures r.0.Fail? ==> |r.1| < |children| && visit(children[|r.1|]) == Err(r.0.error)
  {
    if children == [] then (Pass, [])
    else
      match visit(children[0])
      case Err(e) => (Fail(e), [])
      case Ok(af) =>
        var rest := VisitAll(children[1..], visit);
        assert forall j :: 1 <= j < |children| ==> children[1..][j - 1] == children[j];
        (rest.0, [af] + rest.1)
  }

  /** A visit that stops early keeps the fields of the children before the failing one
      and nothing from the children after it. */
  lemma VisitStopsAtFailure(children: seq<Field>, visit: Field -> Result<ArrowField>, k: int)
    requires 0 <= k < |children| && visit(children[k]).Err?
    requires forall j :: 0 <= j < k ==> visit(children[j]).Ok?
    ensures VisitAll(children, visit).0 == Fail(visit(children[k]).error)
    ensures VisitAll(children, visit).1 == seq(k, j requires 0 <= j < k => visit(children[j]).value)
  {
    var r := VisitAll(children, visit);
    assert r.0.Fail?;
    assert |r.1| >= k;
    assert |r.1| <= k;
  }

  /** With `DoVisit` every child is visited: one Arrow field per direct child, in order. */
  lemma DoVisitAll(children: seq<Field>)
    ensures VisitAll(children, DoVisit) == (Pass, ToArrowFields(children))
  {
    var r := VisitAll(children, DoVisit);
    assert |r.1| == |children|;
    forall j | 0 <= j < |children| ensures r.1[j] == ToArrowFields(children)[j] {
      ToArrowFieldsAt(children, j);
    }
  }

  class ToArrowVisitor {
    /** `arrow_fields_`: every field produced so far. */
    var arrowFields: seq<ArrowField>

    constructor()
      ensures arrowFields == []
    {
      arrowFields := [];
    }

    /** The loop of `ToArrowVisitor::Visit` over the direct children of `root`, each turned
        into an Arrow field by `visit`; a failure is returned at once. */
    method VisitWith(root: Field, visit: Field -> Result<ArrowField>) returns (status: Outcome)
      modifies this
      ensures status == VisitAll(root.children, visit).0
      ensures arrowFields == old(arrowFields) + VisitAll(root.children, visit).1
    {
      ghost var start := arrowFields;
      ghost var produced: seq<ArrowField> := [];
      var i := 0;
      while i < |root.children|
        invariant 0 <= i <= |root.children| && |produced| == i
        invariant arrowFields == start + produced
        invariant forall j :: 0 <= j < i ==> visit(root.children[j]) == Ok(produced[j])
      {
        var r := visit(root.children[i]);
        if r.Err? {
          VisitStopsAtFailure(root.children, visit, i);
          assert produced == VisitAll(root.children, visit).1;
          return Fail(r.error);
        }
        arrowFields := arrowFields + [r.value];
        produced := produced + [r.value];
        i := i + 1;
      }
      ghost var all := VisitAll(root.children, visit);
      assert all.0.Pass?;
      assert produced == all.1;
      status := Pass;
    }

    /** `ToArrowVisitor::Visit(root)`. */
    method Visit(root: Field) returns (status: Outcome)
      modifies this
      ensures status == Pass
      ensures arrowFields == old(arrowFields) + ToArrowFields(root.children)
    {
      DoVisitAll(root.children);
      status := VisitWith(root, DoVisit);
    }

    /** `ToArrowVisitor::Finish`: the schema of the accumulated fields. */
    function Finish(): (a: ArrowSchema)
      reads this
      ensures a.fields == arrowFields
    {
      ArrowSchema(arrowFields)
    }
  }

  /** A fresh visitor run over the top-level fields of a schema yields that schema's
      Arrow form. */
  method SchemaToArrow(s: Schema) returns (a: ArrowSchema)
    ensures a == ToArrow(s)
  {
    var root := Field(UnassignedId, UnassignedId, "", "struct", Struct, s.fields);
    var v := new ToArrowVisitor();
    var _ := v.Visit(root);
    a := v.Finish();
  }

  /** Two visits with the same visitor accumulate: the second visit's fields follow the
      first one's. */
  method VisitTwice(first: Field, second: Field) returns (a: ArrowSchema)
    ensures a.fields == ToArrowFields(first.children) + ToArrowFields(second.children)
  {
    ghost var x := ToArrowFields(first.children);
    ghost var y := ToArrowFields(second.children);
    var v := new ToArrowVisitor();
    var _ := v.Visit(first);
    assert v.arrowFields == [] + x == x;
    var _ := v.Visit(second);
    assert v.arrowFields == x + y;
    a := v.Finish();
  }
}
