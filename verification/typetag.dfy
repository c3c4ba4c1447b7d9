/** Type tags (tut_typetag.c) and the comparison the compiler uses.
    tut_typetag.c names five primitive kinds plus the user type; the
    compiler and parser also use `void`, references
    and function types, so the datatype carries those kinds as well. */
module Types {
  import opened Wrappers

  datatype Typetag =
    | Bool
    | Int
    | Float
    | CStr
    | Str
    | Void
    | Ref(pointee: Option<Typetag>)
    | Func(args: seq<Typetag>, ret: Typetag, varargs: bool)
    | User(defined: bool, name: Option<string>, members: seq<Member>)

  /** A struct member; `offset` is -1 until the layout pass assigns it. */
  datatype Member = Member(name: string, offset: int, typetag: Typetag)

  /** The `type` field of a tag (TutTypetagType). */
  datatype Kind = KBool | KInt | KFloat | KCStr | KStr | KVoid | KRef | KFunc | KUser

  function KindOf(t: Typetag): Kind {
    match t
    case Bool => KBool
    case Int => KInt
    case Float => KFloat
    case CStr => KCStr
    case Str => KStr
    case Void => KVoid
    case Ref(_) => KRef
    case Func(_, _, _) => KFunc
    case User(_, _, _) => KUser
  }

  /** The kinds enumerated by tut_typetag.h, in order. */
  const HeaderKinds: seq<Kind> := [KBool, KInt, KFloat, KCStr, KStr, KUser]

  /** The `Names` table: one entry per primitive kind below the user type. */
  const Names: seq<string> := ["bool", "int", "float", "cstr", "str"]

  /** Tut_InitTypetag: a tag of the given kind; a user type starts
      undefined, nameless and without members. */
  function InitTypetag(k: Kind): (t: Typetag)
    requires k in HeaderKinds
    ensures KindOf(t) == k
    ensures k == KUser ==> !t.defined && t.name == None && t.members == []
  {
    match k
    case KBool => Bool
    case KInt => Int
    case KFloat => Float
    case KCStr => CStr
    case KStr => Str
    case KUser => User(false, None, [])
  }

  /** Tut_CreatePrimitiveTypetag: a tag for one of the five names, else NULL. */
  function CreatePrimitiveTypetag(name: string): (r: Option<Typetag>)
    ensures r.Some? <==> name in Names
    ensures forall i :: 0 <= i < |Names| && name == Names[i] ==> r == Some(InitTypetag(HeaderKinds[i]))
  {
    PrimitiveFrom(name, 0)
  }

  /** The loop of Tut_CreatePrimitiveTypetag from entry `i` on. */
  function PrimitiveFrom(name: string, i: nat): (r: Option<Typetag>)
    requires i <= |Names|
    ensures r.Some? <==> name in Names[i..]
    ensures forall j :: i <= j < |Names| && name == Names[j] ==> r == Some(InitTypetag(HeaderKinds[j]))
    decreases |Names| - i
  {
    if i == |Names| then None
    else if name == Names[i] then Some(InitTypetag(HeaderKinds[i]))
    else PrimitiveFrom(name, i + 1)
  }

  /** Tut_CompareTypes: equal kinds, and for user types equal (present) names. */
  predicate CompareTypes(a: Typetag, b: Typetag) {
    if KindOf(a) != KindOf(b) then false
    else if a.User? then a.name.Some? && b.name.Some? && a.name.value == b.name.value
    else true
  }

  lemma CompareDifferentKinds(a: Typetag, b: Typetag)
    requires KindOf(a) != KindOf(b)
    ensures !CompareTypes(a, b)
  {
  }

  /** Two user types are equal exactly when both are named and the names agree;
      in particular a nameless user type equals nothing, not even itself. */
  lemma CompareUserTypes(a: Typetag, b: Typetag)
    requires a.User? && b.User?
    ensures CompareTypes(a, b) <==> a.name.Some? && b.name.Some? && a.name.value == b.name.value
    ensures a.name.None? ==> !CompareTypes(a, a)
  {
  }

  lemma ComparePrimitives(a: Typetag, b: Typetag)
    requires !a.User? && KindOf(a) == KindOf(b)
    ensures CompareTypes(a, b)
  {
  }

  lemma CompareSymmetric(a: Typetag, b: Typetag)
    ensures CompareTypes(a, b) == CompareTypes(b, a)
  {
  }

  /** Comparison is transitive, and reflexive on everything except the nameless user type. */
  lemma CompareEquivalence(a: Typetag, b: Typetag, c: Typetag)
    ensures (!a.User? || a.name.Some?) ==> CompareTypes(a, a)
    ensures CompareTypes(a, b) && CompareTypes(b, c) ==> CompareTypes(a, c)
  {
  }

  /** Tut_TypetagRepr: a user type's name, else the kind's `Names` entry.
      `None` stands for the NULL a nameless user type yields; `void`,
      references and function types have no entry in tut's type table. */
  function TypetagRepr(t: Typetag): (r: Option<string>)
    ensures t.User? ==> r == t.name
    ensures forall i :: 0 <= i < |Names| && KindOf(t) == HeaderKinds[i] ==> r == Some(Names[i])
    ensures t.Void? || t.Ref? || t.Func? ==> r.None?
  {
    match t
    case User(_, name, _) => name
    case Bool => Some(Names[0])
    case Int => Some(Names[1])
    case Float => Some(Names[2])
    case CStr => Some(Names[3])
    case Str => Some(Names[4])
    case _ => None
  }

  /** Creating a primitive and printing it gives back its name. */
  lemma ReprOfPrimitive(name: string)
    requires name in Names
    ensures CreatePrimitiveTypetag(name).Some?
    ensures TypetagRepr(CreatePrimitiveTypetag(name).value) == Some(name)
  {
    var i :| 0 <= i < |Names| && Names[i] == name;
    assert CreatePrimitiveTypetag(name) == Some(InitTypetag(HeaderKinds[i]));
  }

  /** The primitive names the parser's type lookup and the type checker of
      tut rely on, in lookup order: the five of `Names`, then
      `void` and `ref` (a reference whose pointee is not yet specified). */
  const Primitives: seq<(string, Typetag)> := [
    ("bool", Bool), ("int", Int), ("float", Float), ("cstr", CStr), ("str", Str),
    ("void", Void), ("ref", Ref(None))
  ]

  /** The primitive a name denotes, if any. */
  function LanguagePrimitive(name: string): Option<Typetag> {
    LookupPrimitive(name, 0)
  }

  /** The lookup loop over `Primitives` from entry `i` on. */
  function LookupPrimitive(name: string, i: nat): Option<Typetag>
    requires i <= |Primitives|
    decreases |Primitives| - i
  {
    if i == |Primitives| then None
    else if Primitives[i].0 == name then Some(Primitives[i].1)
    else LookupPrimitive(name, i + 1)
  }

  /** The tags a single primitive name denotes. */
  predicate IsPrimitive(t: Typetag) {
    t.Bool? || t.Int? || t.Float? || t.CStr? || t.Str? || t.Void? || t == Ref(None)
  }

  /** The name that spells a primitive tag in source text. */
  function PrimitiveName(t: Typetag): string
    requires IsPrimitive(t)
  {
    match t
    case Bool => "bool"
    case Int => "int"
    case Float => "float"
    case CStr => "cstr"
    case Str => "str"
    case Void => "void"
    case Ref(_) => "ref"
  }

  /** The lookup from entry `i` on finds exactly the entries at or after `i`. */
  lemma {:induction false} LookupPrimitiveFrom(name: string, i: nat)
    requires i <= |Primitives|
    ensures LookupPrimitive(name, i).Some? <==> exists j :: i <= j < |Primitives| && Primitives[j].0 == name
    ensures LookupPrimitive(name, i).Some? ==>
      exists j :: i <= j < |Primitives| && Primitives[j] == (name, LookupPrimitive(name, i).value)
    decreases |Primitives| - i
  {
    if i < |Primitives| && Primitives[i].0 != name {
      LookupPrimitiveFrom(name, i + 1);
    }
  }

  /** Looking up the name of a primitive gives back that primitive, and a
      name the lookup knows always denotes a primitive spelled by it. */
  lemma LanguagePrimitiveRoundTrip(t: Typetag, name: string)
    ensures IsPrimitive(t) ==> LanguagePrimitive(PrimitiveName(t)) == Some(t)
    ensures LanguagePrimitive(name).Some? ==>
      IsPrimitive(LanguagePrimitive(name).value) && PrimitiveName(LanguagePrimitive(name).value) == name
  {
    LookupPrimitiveFrom(name, 0);
  }

  /** On the five names of tut_typetag.c the lookup agrees with
      Tut_CreatePrimitiveTypetag; it adds exactly `void` and `ref`. */
  lemma LanguagePrimitiveExtends(name: string)
    ensures name != "void" && name != "ref" ==> LanguagePrimitive(name) == CreatePrimitiveTypetag(name)
    ensures name == "void" ==> LanguagePrimitive(name) == Some(Void) && CreatePrimitiveTypetag(name).None?
    ensures name == "ref" ==> LanguagePrimitive(name) == Some(Ref(None)) && CreatePrimitiveTypetag(name).None?
  {
    LookupPrimitiveFrom(name, 0);
    assert forall i :: 0 <= i < |Names| ==> Primitives[i] == (Names[i], InitTypetag(HeaderKinds[i]));
    if name != "void" && name != "ref" {
      var r := LanguagePrimitive(name);
      if r.Some? {
        var j :| 0 <= j < |Primitives| && Primitives[j] == (name, r.value);
        assert j < |Names|;
      } else {
        assert name !in Names;
      }
    }
  }
}
