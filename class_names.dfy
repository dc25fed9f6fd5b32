/** The `cn` class-name joiner: keep the truthy arguments, join them with
    single spaces. */
module ClassNames {
  import opened JsStrings

  /** An argument of `cn`: a class-name string, or one of the falsy
      placeholders `undefined`, `null` and `false`. */
  datatype ClassValue = Name(name: string) | Undefined | Null | False

  /** `Boolean(v)`: the empty string is falsy as well. */
  predicate Truthy(v: ClassValue)
  {
    v.Name? && v.name != []
  }

  /** `classes.filter(Boolean)`: the names of the truthy arguments, in order. */
  function Kept(classes: seq<ClassValue>): (r: seq<string>)
    ensures |r| <= |classes|
    ensures forall s :: s in r <==> Name(s) in classes && s != []
  {
    if classes == [] then []
    else
      var rest := Kept(classes[1..]);
      assert forall v :: v in classes <==> v == classes[0] || v in classes[1..];
      if Truthy(classes[0]) then [classes[0].name] + rest else rest
  }

  /** `cn(...classes)`. */
  function Cn(classes: seq<ClassValue>): string
  {
    Join(Kept(classes), " ")
  }

  /** Filtering keeps the relative order: the kept names of a concatenation
      are the kept names of the first part followed by those of the second. */
  lemma {:induction false} KeptConcat(a: seq<ClassValue>, b: seq<ClassValue>)
    ensures Kept(a + b) == Kept(a) + Kept(b)
  {
    if a == [] {
      assert a + b == b;
    } else {
      assert (a + b)[1..] == a[1..] + b;
      KeptConcat(a[1..], b);
    }
  }

  /** The class string is empty exactly when no argument is truthy. */
  lemma {:induction false} CnEmptyIffNoneTruthy(classes: seq<ClassValue>)
    ensures Cn(classes) == [] <==> forall v :: v in classes ==> !Truthy(v)
  {
    var k := Kept(classes);
    if k != [] {
      assert k[0] in k;
      assert Cn(classes) == k[0] + JoinRest(k[1..], " ");
    }
  }

  /** When no kept name contains a space, splitting the class string on spaces
      gives back exactly the truthy arguments, in order. */
  lemma CnSplitsIntoKept(classes: seq<ClassValue>)
    requires exists v :: v in classes && Truthy(v)
    requires forall v :: v in classes && v.Name? ==> ' ' !in v.name
    ensures Split(Cn(classes), " ") == Kept(classes)
  {
    var v :| v in classes && Truthy(v);
    assert v.name in Kept(classes);
    SplitJoin(Kept(classes), ' ');
  }
}
