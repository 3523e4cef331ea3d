/** The forms of kernel/forms/src/forms.c as values: a tree for every form, with its name
and the affects it points to.  Structural equality is shown to compare what is left of two
forms when names, affects and aliases are taken away, and the affordances are compared with
those forms.h promises. */
module Forms {
  import opened Options

  datatype PrimitiveType = BYTE | U8 | U16 | U32 | U64 | I8 | I16 | I32 | I64 | F32 | F64 | CHAR

  /** An affect; several forms may point to the same one. */
  class Affect {
    const name: string
    var alsoIncludes: seq<string>

    constructor (name: string)
      ensures this.name == name && alsoIncludes == []
    {
      this.name := name;
      alsoIncludes := [];
    }

    /** `ak_affect_add_also` */
    method AddAlso(other: string)
      modifies this`alsoIncludes
      ensures alsoIncludes == old(alsoIncludes) + [other]
    {
      alsoIncludes := alsoIncludes + [other];
    }
  }

  datatype Form = Form(name: Option<string>, data: Data, affects: seq<Affect>)

  datatype Data =
    | Primitive(primitive: PrimitiveType)
    | Compound(parts: seq<Form>)
    | Optional(inner: Form)
    | Repeatable(inner: Form)
    | Struct(pattern: Form, fieldNames: seq<string>)
    | List(elementType: Form)
    | Map(keyType: PrimitiveType, valueType: Form)
    | Named(actualForm: Form)

  /** One alias is looked through, not more. */
  function Unwrap(f: Form): Form {
    if f.data.Named? then f.data.actualForm else f
  }

  // ---------------------------------------------------------------- structural equality

  /** `forms_structurally_equal` */
  predicate SameShape(f: Form, g: Form)
    decreases f
  {
    SameData(Unwrap(f).data, Unwrap(g).data)
  }

  predicate SameData(d: Data, e: Data)
    decreases d
  {
    match (d, e)
    case (Primitive(p), Primitive(q)) => p == q
    case (Compound(ps), Compound(qs)) => |ps| == |qs| && forall i :: 0 <= i < |ps| ==> SameShape(ps[i], qs[i])
    case (Optional(x), Optional(y)) => SameShape(x, y)
    case (Repeatable(x), Repeatable(y)) => SameShape(x, y)
    case (Struct(x, fs), Struct(y, gs)) => |fs| == |gs| && SameShape(x, y)
    case (List(x), List(y)) => SameShape(x, y)
    case (Map(k, x), Map(l, y)) => k == l && SameShape(x, y)
    case _ => false
  }

  /** What structural equality looks at: no names, no affects, no aliases, and of the
      fields of a struct only how many. */
  datatype Skeleton =
    | Prim(p: PrimitiveType)
    | Parts(parts: seq<Skeleton>)
    | Opt(s: Skeleton)
    | Rep(s: Skeleton)
    | Fields(s: Skeleton, count: nat)
    | Elements(s: Skeleton)
    | Entries(k: PrimitiveType, s: Skeleton)

  function Erase(f: Form): Skeleton
    decreases f
  {
    match f.data
    case Primitive(p) => Prim(p)
    case Compound(ps) => Parts(seq(|ps|, i requires 0 <= i < |ps| => Erase(ps[i])))
    case Optional(x) => Opt(Erase(x))
    case Repeatable(x) => Rep(Erase(x))
    case Struct(x, fs) => Fields(Erase(x), |fs|)
    case List(x) => Elements(Erase(x))
    case Map(k, x) => Entries(k, Erase(x))
    case Named(x) => Erase(x)
  }

  /** No alias is directly an alias of an alias, anywhere in the form. */
  predicate SingleAliases(f: Form)
    decreases f
  {
    match f.data
    case Primitive(_) => true
    case Compound(ps) => forall i :: 0 <= i < |ps| ==> SingleAliases(ps[i])
    case Optional(x) => SingleAliases(x)
    case Repeatable(x) => SingleAliases(x)
    case Struct(x, _) => SingleAliases(x)
    case List(x) => SingleAliases(x)
    case Map(_, x) => SingleAliases(x)
    case Named(x) => !x.data.Named? && SingleAliases(x)
  }

  /** Forms are structurally equal exactly when their skeletons are the same and neither has
      an alias of an alias. */
  lemma {:induction false} SameShapeIff(f: Form, g: Form)
    ensures SameShape(f, g) <==> SingleAliases(f) && SingleAliases(g) && Erase(f) == Erase(g)
    decreases f
  {
    var (x, y) := (Unwrap(f), Unwrap(g));
    assert Erase(x) == Erase(f) && Erase(y) == Erase(g);
    assert SingleAliases(f) <==> !x.data.Named? && SingleAliases(x);
    assert SingleAliases(g) <==> !y.data.Named? && SingleAliases(y);
    match (x.data, y.data)
    case (Compound(ps), Compound(qs)) =>
      forall i | 0 <= i < |ps| && |ps| == |qs|
        ensures SameShape(ps[i], qs[i]) <==>
                SingleAliases(ps[i]) && SingleAliases(qs[i]) && Erase(ps[i]) == Erase(qs[i])
      {
        SameShapeIff(ps[i], qs[i]);
      }
      PartsErased(ps, qs);
    case (Optional(a), Optional(b)) => SameShapeIff(a, b);
    case (Repeatable(a), Repeatable(b)) => SameShapeIff(a, b);
    case (Struct(a, _), Struct(b, _)) => SameShapeIff(a, b);
    case (List(a), List(b)) => SameShapeIff(a, b);
    case (Map(_, a), Map(_, b)) => SameShapeIff(a, b);
    case _ =>
  }

  function ErasedParts(ps: seq<Form>): (r: seq<Skeleton>)
    ensures |r| == |ps| && forall i :: 0 <= i < |ps| ==> r[i] == Erase(ps[i])
  {
    seq(|ps|, i requires 0 <= i < |ps| => Erase(ps[i]))
  }

  lemma PartsErased(ps: seq<Form>, qs: seq<Form>)
    ensures ErasedParts(ps) == ErasedParts(qs) <==>
            |ps| == |qs| && forall i :: 0 <= i < |ps| ==> Erase(ps[i]) == Erase(qs[i])
  {
    if ErasedParts(ps) == ErasedParts(qs) {
      forall i | 0 <= i < |ps|
        ensures Erase(ps[i]) == Erase(qs[i])
      {
        assert ErasedParts(ps)[i] == ErasedParts(qs)[i];
      }
    }
  }

  lemma {:induction false} Symmetric(f: Form, g: Form)
    ensures SameShape(f, g) == SameShape(g, f)
  {
    SameShapeIff(f, g);
    SameShapeIff(g, f);
  }

  lemma {:induction false} Transitive(f: Form, g: Form, h: Form)
    requires SameShape(f, g) && SameShape(g, h)
    ensures SameShape(f, h)
  {
    SameShapeIff(f, g);
    SameShapeIff(g, h);
    SameShapeIff(f, h);
  }

  /** A form equals itself exactly when no alias directly wraps an alias. */
  lemma {:induction false} ReflexiveIff(f: Form)
    ensures SameShape(f, f) <==> SingleAliases(f)
  {
    SameShapeIff(f, f);
  }

  /** Of a struct's fields only the number counts. */
  lemma FieldNamesDoNotMatter(f: Form, g: Form, pattern: Form, fs: seq<string>, gs: seq<string>)
    requires f.data == Struct(pattern, fs) && g.data == Struct(pattern, gs) && SingleAliases(pattern)
    ensures SameShape(f, g) <==> |fs| == |gs|
  {
    SameShapeIff(f, g);
  }

  // ---------------------------------------------------------------- affordances

  /** The names a form affords by its structure. */
  function Structural(data: Data): seq<string> {
    match data
    case Optional(_) => ["is_none", "is_some"]
    case Repeatable(_) => ["append", "pop", "push", "rest", "iterate"]
    case List(_) => ["index", "iterate", "length"]
    case Map(_, _) => ["get", "set", "has", "iterate"]
    case Struct(_, fs) => fs
    case _ => []
  }

  function AffectNames(affects: seq<Affect>): (r: seq<string>)
    ensures |r| == |affects| && forall i :: 0 <= i < |affects| ==> r[i] == affects[i].name
  {
    seq(|affects|, i requires 0 <= i < |affects| => affects[i].name)
  }

  /** What `ak_form_get_affordances` lists. */
  function Affordances(f: Form): seq<string> {
    AffectNames(Unwrap(f).affects) + Structural(Unwrap(f).data)
  }

  /** The affordances forms.h promises: those of the form itself and whatever one of its
      affects also includes. */
  ghost predicate IsDocumented(f: Form, name: string)
    reads Unwrap(f).affects
  {
    || name in Affordances(f)
    || exists a :: a in Unwrap(f).affects && name in a.alsoIncludes
  }

  /** Whatever an affect also includes is an affect's name or structural. */
  predicate InclusionsAfforded(f: Form)
    reads Unwrap(f).affects
  {
    forall a :: a in Unwrap(f).affects ==>
      forall name :: name in a.alsoIncludes ==>
        name in AffectNames(Unwrap(f).affects) || name in Structural(Unwrap(f).data)
  }

  /** What is listed is what is promised exactly if every inclusion is afforded anyway. */
  lemma ListedIsDocumentedIff(f: Form)
    ensures (forall name :: IsDocumented(f, name) <==> name in Affordances(f)) <==> InclusionsAfforded(f)
  {
    if forall name :: IsDocumented(f, name) <==> name in Affordances(f) {
      forall a, name | a in Unwrap(f).affects && name in a.alsoIncludes
        ensures name in AffectNames(Unwrap(f).affects) || name in Structural(Unwrap(f).data)
      {
        assert IsDocumented(f, name);
      }
    }
  }

  ghost predicate IsFirst(affects: seq<Affect>, i: int, name: string) {
    && 0 <= i < |affects| && affects[i].name == name
    && forall j :: 0 <= j < i ==> affects[j].name != name
  }

  /** `ak_form_get_affect`: the first affect with the name. */
  method GetAffect(form: Form, name: string) returns (r: Option<Affect>)
    ensures r.None? <==> name !in AffectNames(Unwrap(form).affects)
    ensures r.Some? ==>
              exists i :: IsFirst(Unwrap(form).affects, i, name) && Unwrap(form).affects[i] == r.value
  {
    var current := if form.data.Named? then form.data.actualForm else form;
    for i := 0 to |current.affects|
      invariant forall j :: 0 <= j < i ==> current.affects[j].name != name
    {
      if current.affects[i].name == name {
        assert AffectNames(current.affects)[i] == name && IsFirst(current.affects, i, name);
        return Some(current.affects[i]);
      }
    }
    return None;
  }

  /** `form_has_structural_affordance` */
  method HasStructuralAffordance(form: Form, name: string) returns (r: bool)
    ensures r <==> name in Structural(Unwrap(form).data)
    ensures match Unwrap(form).data
            case Optional(_) => r <==> name in {"is_none", "is_some"}
            case Repeatable(_) => r <==> name in {"append", "pop", "push", "rest", "iterate"}
            case List(_) => r <==> name in {"index", "iterate", "length"}
            case Map(_, _) => r <==> name in {"get", "set", "has", "iterate"}
            case Struct(_, fields) => r <==> name in fields
            case _ => !r
  {
    var current := if form.data.Named? then form.data.actualForm else form;
    match current.data
    case Optional(_) => return name == "is_none" || name == "is_some";
    case Repeatable(_) =>
      return name == "append" || name == "pop" || name == "push" || name == "rest" || name == "iterate";
    case List(_) => return name == "index" || name == "iterate" || name == "length";
    case Map(_, _) => return name == "get" || name == "set" || name == "has" || name == "iterate";
    case Struct(_, fs) =>
      for i := 0 to |fs|
        invariant name !in fs[..i]
      {
        if name == fs[i] {
          return true;
        }
      }
      assert fs[..|fs|] == fs;
      return false;
    case _ => return false;
  }

  /** `ak_form_has_affordance`: exactly what is listed is afforded. */
  method HasAffordance(form: Form, name: string) returns (r: bool)
    ensures r <==> name in Affordances(form)
  {
    var affect := GetAffect(form, name);
    if affect.Some? {
      return true;
    }
    r := HasStructuralAffordance(form, name);
  }

  /** An affect of any form may come to include a name the form does not afford: the name
      is promised from then on, and still not afforded. */
  method IncludedIsMissed(form: Form, i: nat, other: string) returns (r: bool)
    requires i < |Unwrap(form).affects| && other !in Affordances(form)
    modifies Unwrap(form).affects[i]
    ensures IsDocumented(form, other) && !r
  {
    var current := Unwrap(form);
    current.affects[i].AddAlso(other);
    r := HasAffordance(form, other);
  }

  /** One such form: a list of bytes whose only affect, "map", also includes "filter". */
  method FilterIsMissed() returns (form: Form, r: bool)
    ensures IsDocumented(form, "filter") && !InclusionsAfforded(form) && !r
  {
    var affect := new Affect("map");
    form := Form(None, List(Form(None, Primitive(BYTE), [])), [affect]);
    assert AffectNames([affect]) == ["map"];
    r := IncludedIsMissed(form, 0, "filter");
    ListedIsDocumentedIff(form);
  }

  /** `ak_form_get_affordances` */
  method GetAffordances(form: Form) returns (affordances: seq<string>)
    ensures affordances == Affordances(form)
    ensures var n := |Unwrap(form).affects|;
      && n <= |affordances| && (forall i :: 0 <= i < n ==> affordances[i] == Unwrap(form).affects[i].name)
      && affordances[n..] == match Unwrap(form).data
                             case Optional(_) => ["is_none", "is_some"]
                             case Repeatable(_) => ["append", "pop", "push", "rest", "iterate"]
                             case List(_) => ["index", "iterate", "length"]
                             case Map(_, _) => ["get", "set", "has", "iterate"]
                             case Struct(_, fields) => fields
                             case _ => []
  {
    affordances := [];
    var current := if form.data.Named? then form.data.actualForm else form;
    for i := 0 to |current.affects|
      invariant affordances == AffectNames(current.affects)[..i]
    {
      affordances := affordances + [current.affects[i].name];
    }
    ghost var names := affordances;
    match current.data
    case Optional(_) => affordances := affordances + ["is_none"] + ["is_some"];
    case Repeatable(_) => affordances := PushAll(affordances, ["append", "pop", "push", "rest", "iterate"]);
    case List(_) => affordances := PushAll(affordances, ["index", "iterate", "length"]);
    case Map(_, _) => affordances := PushAll(affordances, ["get", "set", "has", "iterate"]);
    case Struct(_, fs) => affordances := PushAll(affordances, fs);
    case _ =>
  }

  /** The loops that push a list of names. */
  method PushAll(list: seq<string>, names: seq<string>) returns (r: seq<string>)
    ensures r == list + names
  {
    r := list;
    for i := 0 to |names|
      invariant r == list + names[..i]
    {
      r := r + [names[i]];
    }
  }

  /** What structural equality tells apart in two forms of the same kind. */
  lemma KindsCompare(f: Form, g: Form)
    requires !f.data.Named? && !g.data.Named?
    ensures SameShape(f, g) <==>
              || (f.data.Primitive? && g.data.Primitive? && f.data.primitive == g.data.primitive)
              || (f.data.Compound? && g.data.Compound? && |f.data.parts| == |g.data.parts|
                  && forall i :: 0 <= i < |f.data.parts| ==> SameShape(f.data.parts[i], g.data.parts[i]))
              || (f.data.Optional? && g.data.Optional? && SameShape(f.data.inner, g.data.inner))
              || (f.data.Repeatable? && g.data.Repeatable? && SameShape(f.data.inner, g.data.inner))
              || (f.data.Struct? && g.data.Struct? && SameShape(f.data.pattern, g.data.pattern)
                  && |f.data.fieldNames| == |g.data.fieldNames|)
              || (f.data.List? && g.data.List? && SameShape(f.data.elementType, g.data.elementType))
              || (f.data.Map? && g.data.Map? && f.data.keyType == g.data.keyType
                  && SameShape(f.data.valueType, g.data.valueType))
  {
  }
}
