/** The forms of kernel/forms/src/forms.c as the nodes they are made of: a clone is a tree of
new nodes that point to the same affects. */
module FormNodes {
  import opened Options
  import F = Forms

  datatype NodeData =
    | Primitive(primitive: F.PrimitiveType)
    | Compound(parts: seq<FormNode>)
    | Optional(inner: FormNode)
    | Repeatable(inner: FormNode)
    | Struct(pattern: FormNode, fieldNames: seq<string>)
    | List(elementType: FormNode)
    | Map(keyType: F.PrimitiveType, valueType: FormNode)
    | Named(actualForm: FormNode)

  class FormNode {
    var name: Option<string>
    var data: NodeData
    var affects: seq<F.Affect>
    ghost var nodes: set<FormNode>

    constructor (name: Option<string>, data: NodeData)
      ensures this.name == name && this.data == data && affects == [] && nodes == {}
    {
      this.name := name;
      this.data := data;
      affects := [];
      nodes := {};
    }

    /** `ak_form_add_affect`: a form that does not hold this node spells what it spelled. */
    method AddAffect(affect: F.Affect, ghost f: F.Form)
      requires Tree(this, f)
      modifies this`affects
      ensures affects == old(affects) + [affect]
      ensures Tree(this, f.(affects := f.affects + [affect]))
      ensures forall other: FormNode, g | old(allocated(other) && allocated(g)) && this !in other.nodes
                :: old(Tree(other, g)) ==> Tree(other, g)
    {
      affects := affects + [affect];
    }
  }

  /** `node` and all below it are among `below`, and spell the form `f`. */
  ghost predicate Within(below: set<FormNode>, node: FormNode, f: F.Form)
    reads below
    decreases f, 1
  {
    node in below && node.nodes <= below && Tree(node, f)
  }

  /** `node` is the root of a tree that spells the form `f`; no node is in it twice. */
  ghost predicate Tree(node: FormNode, f: F.Form)
    reads node, node.nodes
    decreases f, 0
  {
    && node in node.nodes && node.name == f.name && node.affects == f.affects
    && Spells(node.data, f.data, node.nodes - {node})
  }

  ghost predicate Spells(d: NodeData, e: F.Data, below: set<FormNode>)
    reads below
    decreases e
  {
    match (d, e)
    case (Primitive(p), Primitive(q)) => p == q
    case (Compound(ns), Compound(fs)) =>
      && |ns| == |fs|
      && (forall i :: 0 <= i < |ns| ==> Within(below, ns[i], fs[i]))
      && (forall i, j :: 0 <= i < j < |ns| ==> ns[i].nodes !! ns[j].nodes)
    case (Optional(n), Optional(g)) => Within(below, n, g)
    case (Repeatable(n), Repeatable(g)) => Within(below, n, g)
    case (Struct(n, ns), Struct(g, gs)) => Within(below, n, g) && ns == gs
    case (List(n), List(g)) => Within(below, n, g)
    case (Map(k, n), Map(l, g)) => Within(below, n, g) && k == l
    case (Named(n), Named(g)) => Within(below, n, g)
    case _ => false
  }

  /** One alias is looked through, not more. */
  method Unwrapped(form: FormNode, ghost f: F.Form) returns (node: FormNode)
    requires Tree(form, f)
    ensures Tree(node, F.Unwrap(f))
  {
    match form.data
    case Named(actualForm) =>
      assert Spells(form.data, f.data, form.nodes - {form});
      return actualForm;
    case _ => return form;
  }

  /** `forms_structurally_equal` */
  method StructurallyEqual(form1: FormNode?, form2: FormNode?, ghost f: F.Form, ghost g: F.Form) returns (r: bool)
    requires form1 != null ==> Tree(form1, f)
    requires form2 != null ==> Tree(form2, g)
    ensures r <==> form1 != null && form2 != null && F.SameShape(f, g)
    decreases f
  {
    if form1 == null || form2 == null {
      return false;
    }
    var node1 := Unwrapped(form1, f);
    var node2 := Unwrapped(form2, g);
    r := SameData(node1.data, node2.data, F.Unwrap(f).data, F.Unwrap(g).data,
                  node1.nodes - {node1}, node2.nodes - {node2});
  }

  method SameData(d1: NodeData, d2: NodeData, ghost e1: F.Data, ghost e2: F.Data,
                  ghost below1: set<FormNode>, ghost below2: set<FormNode>) returns (r: bool)
    requires Spells(d1, e1, below1) && Spells(d2, e2, below2)
    ensures r <==> F.SameData(e1, e2)
    decreases e1
  {
    match (d1, d2)
    case (Primitive(p), Primitive(q)) => return p == q;
    case (Compound(ns), Compound(ms)) =>
      if |ns| != |ms| {
        return false;
      }
      for i := 0 to |ns|
        invariant forall j :: 0 <= j < i ==> F.SameShape(e1.parts[j], e2.parts[j])
      {
        var same := StructurallyEqual(ns[i], ms[i], e1.parts[i], e2.parts[i]);
        if !same {
          return false;
        }
      }
      return true;
    case (Optional(n), Optional(m)) => r := StructurallyEqual(n, m, e1.inner, e2.inner);
    case (Repeatable(n), Repeatable(m)) => r := StructurallyEqual(n, m, e1.inner, e2.inner);
    case (Struct(n, fs), Struct(m, gs)) =>
      if |fs| != |gs| {
        return false;
      }
      r := StructurallyEqual(n, m, e1.pattern, e2.pattern);
    case (List(n), List(m)) => r := StructurallyEqual(n, m, e1.elementType, e2.elementType);
    case (Map(k, n), Map(l, m)) =>
      if k != l {
        return false;
      }
      r := StructurallyEqual(n, m, e1.valueType, e2.valueType);
    case _ => return false;
  }

  /** `ak_form_clone`: the clone spells the same form with nodes of its own, which point to
      the same affects and names of fields. */
  method Clone(form: FormNode?, ghost f: F.Form) returns (clone: FormNode?)
    requires form != null ==> Tree(form, f)
    ensures clone == null <==> form == null
    ensures clone != null ==> fresh(clone.nodes) && Tree(clone, f)
    decreases f
  {
    if form == null {
      return null;
    }
    var data, below := CloneData(form.data, f.data, form.nodes - {form});
    clone := new FormNode(form.name, data);
    clone.nodes := {clone} + below;
    for i := 0 to |form.affects|
      invariant fresh(clone) && clone !in below && Spells(data, f.data, below)
      invariant clone.name == form.name && clone.data == data && clone.nodes == {clone} + below
      invariant clone.affects == form.affects[..i]
    {
      clone.affects := clone.affects + [form.affects[i]];
    }
    assert clone.nodes - {clone} == below;
  }

  method CloneData(d: NodeData, ghost e: F.Data, ghost nodes: set<FormNode>)
      returns (data: NodeData, ghost below: set<FormNode>)
    requires Spells(d, e, nodes)
    ensures fresh(below) && Spells(data, e, below)
    decreases e
  {
    match d
    case Primitive(p) =>
      data, below := Primitive(p), {};
    case Compound(ns) =>
      var parts: seq<FormNode> := [];
      below := {};
      for i := 0 to |ns|
        invariant |parts| == i && fresh(below)
        invariant forall j :: 0 <= j < i ==> Within(below, parts[j], e.parts[j])
        invariant forall j, k :: 0 <= j < k < i ==> parts[j].nodes !! parts[k].nodes
      {
        var part := Clone(ns[i], e.parts[i]);
        below := below + part.nodes;
        parts := parts + [part];
      }
      data := Compound(parts);
    case Optional(n) =>
      var inner := Clone(n, e.inner);
      data, below := Optional(inner), inner.nodes;
    case Repeatable(n) =>
      var inner := Clone(n, e.inner);
      data, below := Repeatable(inner), inner.nodes;
    case Struct(n, names) =>
      var pattern := Clone(n, e.pattern);
      var fieldNames: seq<string> := [];
      for i := 0 to |names|
        invariant fieldNames == names[..i]
      {
        fieldNames := fieldNames + [names[i]];
      }
      data, below := Struct(pattern, fieldNames), pattern.nodes;
    case List(n) =>
      var elementType := Clone(n, e.elementType);
      data, below := List(elementType), elementType.nodes;
    case Map(k, n) =>
      var valueType := Clone(n, e.valueType);
      data, below := Map(k, valueType), valueType.nodes;
    case Named(n) =>
      var actualForm := Clone(n, e.actualForm);
      data, below := Named(actualForm), actualForm.nodes;
  }

  /** Compared with what it was cloned from, a clone is found equal exactly if no alias in it
      directly wraps an alias. */
  method CompareClone(form: FormNode, ghost f: F.Form) returns (same: bool)
    requires Tree(form, f)
    ensures same <==> F.SingleAliases(f)
  {
    var clone := Clone(form, f);
    same := StructurallyEqual(clone, form, f, f);
    F.ReflexiveIff(f);
  }
}
