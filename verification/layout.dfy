/** Struct layout and storage indices (FinalizeTypes, ResolveVariableIndices
    and GetMember of tut_compiler.c). Tut_GetTypetagSize, whose body is not
    part of this model, is the parameter `sz`: the number of stack slots a
    value of a type occupies. */
module Layout {
  import opened Wrappers
  import opened Types
  import opened Syntax

  type SizeOf = Typetag -> nat

  /** The total width of the first `i` elements of `xs`. */
  function Prefix<T>(xs: seq<T>, w: T -> nat, i: nat): nat
    requires i <= |xs|
  {
    if i == 0 then 0 else Prefix(xs, w, i - 1) + w(xs[i - 1])
  }

  /** The total width of all of `xs`. */
  function Total<T>(xs: seq<T>, w: T -> nat): nat {
    Prefix(xs, w, |xs|)
  }

  /** Widths only add up: a longer prefix is at least as wide. */
  lemma {:induction false} PrefixMonotone<T>(xs: seq<T>, w: T -> nat, i: nat, j: nat)
    requires i <= j <= |xs|
    ensures Prefix(xs, w, i) + (if i < j then w(xs[i]) else 0) <= Prefix(xs, w, j)
    decreases j - i
  {
    if i < j {
      if i + 1 < j {
        PrefixMonotone(xs, w, i + 1, j);
      }
    }
  }

  /** The width of a prefix does not depend on what follows it. */
  lemma {:induction false} PrefixOfPrefix<T>(xs: seq<T>, w: T -> nat, i: nat, j: nat)
    requires i <= j <= |xs|
    ensures Prefix(xs[..j], w, i) == Prefix(xs, w, i)
  {
    if i > 0 {
      PrefixOfPrefix(xs, w, i - 1, j);
      assert xs[..j][i - 1] == xs[i - 1];
    }
  }

  /** The width of a member or a declaration: the size of its type. */
  function MemberWidth(sz: SizeOf): Member -> nat {
    (m: Member) => sz(m.typetag)
  }

  function DeclWidth(sz: SizeOf): VarDecl -> nat {
    (d: VarDecl) => sz(d.typetag)
  }

  // ---------------------------------------------------------------------
  // Members

  /** GetMember: the first member of a user type with the given name. */
  function GetMember(tag: Typetag, name: string): (r: Option<Member>)
    requires tag.User?
    ensures r.Some? <==> exists i :: 0 <= i < |tag.members| && tag.members[i].name == name
    ensures r.Some? ==> r.value.name == name
    ensures r.Some? ==>
      exists i :: 0 <= i < |tag.members| && tag.members[i] == r.value
                  && forall j :: 0 <= j < i ==> tag.members[j].name != name
  {
    MemberFrom(tag.members, name, 0)
  }

  /** The search loop of GetMember from index `i` on. */
  function MemberFrom(ms: seq<Member>, name: string, i: nat): (r: Option<Member>)
    requires i <= |ms|
    requires forall j :: 0 <= j < i ==> ms[j].name != name
    ensures r.Some? <==> exists k :: i <= k < |ms| && ms[k].name == name
    ensures r.Some? ==> r.value.name == name
    ensures r.Some? ==>
      exists k :: i <= k < |ms| && ms[k] == r.value
                  && forall j :: 0 <= j < k ==> ms[j].name != name
    decreases |ms| - i
  {
    if i == |ms| then None
    else if ms[i].name == name then Some(ms[i])
    else MemberFrom(ms, name, i + 1)
  }

  // ---------------------------------------------------------------------
  // Struct layout

  /** Member offsets are running sums from `start` in declaration order. */
  ghost predicate RunningOffsets(ms: seq<Member>, sz: SizeOf, start: int) {
    forall i :: 0 <= i < |ms| ==> ms[i].offset == start + Prefix(ms, MemberWidth(sz), i)
  }

  /** The offset loop of FinalizeTypes from member `i` on, with `total` the
      offset reached so far. */
  function LayOutFrom(ms: seq<Member>, sz: SizeOf, i: nat, total: int): (r: seq<Member>)
    requires i <= |ms|
    ensures |r| == |ms| - i
    ensures forall k :: 0 <= k < |r| ==>
      r[k] == ms[i + k].(offset := total + Prefix(ms, MemberWidth(sz), i + k) - Prefix(ms, MemberWidth(sz), i))
    decreases |ms| - i
  {
    if i == |ms| then []
    else [ms[i].(offset := total)] + LayOutFrom(ms, sz, i + 1, total + sz(ms[i].typetag))
  }

  /** The layout of a whole member list: names and types are kept, offsets
      are running sums from 0. */
  function LayOut(ms: seq<Member>, sz: SizeOf): (r: seq<Member>)
    ensures |r| == |ms|
    ensures forall i :: 0 <= i < |ms| ==> r[i].name == ms[i].name && r[i].typetag == ms[i].typetag
    ensures RunningOffsets(r, sz, 0)
    ensures Total(r, MemberWidth(sz)) == Total(ms, MemberWidth(sz))
  {
    var r := LayOutFrom(ms, sz, 0, 0);
    SameWidths(r, ms, MemberWidth(sz), |ms|);
    assert RunningOffsets(r, sz, 0) by {
      forall i | 0 <= i < |ms| ensures r[i].offset == Prefix(r, MemberWidth(sz), i) {
        SameWidths(r, ms, MemberWidth(sz), i);
      }
    }
    r
  }

  /** Two sequences whose elements have the same widths have the same prefix widths. */
  lemma {:induction false} SameWidths<T>(a: seq<T>, b: seq<T>, w: T -> nat, i: nat)
    requires |a| == |b| && i <= |a|
    requires forall k :: 0 <= k < |a| ==> w(a[k]) == w(b[k])
    ensures Prefix(a, w, i) == Prefix(b, w, i)
  {
    if i > 0 {
      SameWidths(a, b, w, i - 1);
    }
  }

  datatype LayoutError = UndefinedType(name: Option<string>) | NoMembers(name: Option<string>)

  /** FinalizeTypes for one registered type: a user type must be defined and
      have members, and then gets its offsets; other tags are left alone. */
  function FinalizeType(t: Typetag, sz: SizeOf): Result<Typetag, LayoutError> {
    match t
    case User(defined, name, ms) =>
      if !defined then Failure(UndefinedType(name))
      else if |ms| == 0 then Failure(NoMembers(name))
      else Success(User(defined, name, LayOut(ms, sz)))
    case _ => Success(t)
  }

  /** FinalizeTypes over the registered types in order; the first error stops it. */
  function FinalizeTypes(ts: seq<Typetag>, sz: SizeOf): (r: Result<seq<Typetag>, LayoutError>)
    ensures r.Success? ==> |r.value| == |ts|
    ensures r.Success? ==> forall i :: 0 <= i < |ts| ==> FinalizeType(ts[i], sz) == Success(r.value[i])
    ensures r.Failure? ==> exists i :: 0 <= i < |ts| && FinalizeType(ts[i], sz).Failure?
    decreases |ts|
  {
    if |ts| == 0 then Success([])
    else
      var t :- FinalizeType(ts[0], sz);
      var rest :- FinalizeTypes(ts[1..], sz);
      assert forall i :: 1 <= i < |ts| ==> ts[i] == ts[1..][i - 1];
      Success([t] + rest)
  }

  /** Layout succeeds exactly when every registered user type is defined
      and has at least one member. */
  lemma FinalizeTypesSucceeds(ts: seq<Typetag>, sz: SizeOf)
    ensures FinalizeTypes(ts, sz).Success? <==>
      forall i :: 0 <= i < |ts| && ts[i].User? ==> ts[i].defined && |ts[i].members| > 0
  {
    if FinalizeTypes(ts, sz).Failure? {
      var i :| 0 <= i < |ts| && FinalizeType(ts[i], sz).Failure?;
    }
  }

  /** After layout, a non-user tag is unchanged, and a user type keeps its
      name and members, with offsets that are running sums from 0: the first
      member is at 0 and each next member follows the previous one's size. */
  lemma FinalizedType(ts: seq<Typetag>, sz: SizeOf, i: nat)
    requires FinalizeTypes(ts, sz).Success? && i < |ts|
    ensures var t := FinalizeTypes(ts, sz).value[i];
      && (!ts[i].User? ==> t == ts[i])
      && (ts[i].User? ==>
            && t.User? && t.name == ts[i].name && t.defined
            && |t.members| == |ts[i].members| > 0
            && (forall k :: 0 <= k < |t.members| ==>
                  t.members[k].name == ts[i].members[k].name && t.members[k].typetag == ts[i].members[k].typetag)
            && RunningOffsets(t.members, sz, 0)
            && t.members[0].offset == 0)
  {
    assert FinalizeType(ts[i], sz) == Success(FinalizeTypes(ts, sz).value[i]);
  }

  /** In a laid-out member list each member starts where the previous one ends. */
  lemma NextOffset(ms: seq<Member>, sz: SizeOf, k: nat)
    requires RunningOffsets(ms, sz, 0) && k + 1 < |ms|
    ensures ms[k + 1].offset == ms[k].offset + sz(ms[k].typetag)
  {
    assert Prefix(ms, MemberWidth(sz), k + 1) == Prefix(ms, MemberWidth(sz), k) + sz(ms[k].typetag);
  }

  /** A laid-out struct's size is the sum of its member sizes: the last
      member ends exactly there, and every member lies inside it. */
  lemma MembersInside(ms: seq<Member>, sz: SizeOf, i: nat)
    requires RunningOffsets(ms, sz, 0) && i < |ms|
    ensures 0 <= ms[i].offset
    ensures ms[i].offset + sz(ms[i].typetag) <= Total(ms, MemberWidth(sz))
    ensures i == |ms| - 1 ==> ms[i].offset + sz(ms[i].typetag) == Total(ms, MemberWidth(sz))
  {
    PrefixMonotone(ms, MemberWidth(sz), i, |ms|);
  }

  /** The member GetMember finds in a laid-out struct lies inside it. */
  lemma FoundMemberInside(tag: Typetag, name: string, mem: Member, sz: SizeOf)
    requires tag.User? && GetMember(tag, name) == Some(mem)
    requires RunningOffsets(tag.members, sz, 0)
    ensures 0 <= mem.offset && mem.offset + sz(mem.typetag) <= Total(tag.members, MemberWidth(sz))
  {
    var i :| 0 <= i < |tag.members| && tag.members[i] == mem;
    MembersInside(tag.members, sz, i);
  }

  // ---------------------------------------------------------------------
  // Storage indices

  /** The index loop for globals and locals: each declaration gets the
      running index `next`, which then grows by the declaration's size. */
  function IndexFrom(ds: seq<VarDecl>, sz: SizeOf, i: nat, next: int): (r: seq<VarDecl>)
    requires i <= |ds|
    ensures |r| == |ds| - i
    ensures forall k :: 0 <= k < |r| ==>
      r[k] == ds[i + k].(index := next + Prefix(ds, DeclWidth(sz), i + k) - Prefix(ds, DeclWidth(sz), i))
    decreases |ds| - i
  {
    if i == |ds| then []
    else [ds[i].(index := next)] + IndexFrom(ds, sz, i + 1, next + sz(ds[i].typetag))
  }

  /** The argument loop: `remaining` starts as the total argument size; each
      argument gets `-remaining`, which then shrinks by the argument's size. */
  function IndexArgsFrom(ds: seq<VarDecl>, sz: SizeOf, i: nat, remaining: int): (r: seq<VarDecl>)
    requires i <= |ds|
    ensures |r| == |ds| - i
    ensures forall k :: 0 <= k < |r| ==>
      r[k] == ds[i + k].(index := -(remaining - (Prefix(ds, DeclWidth(sz), i + k) - Prefix(ds, DeclWidth(sz), i))))
    decreases |ds| - i
  {
    if i == |ds| then []
    else [ds[i].(index := -remaining)] + IndexArgsFrom(ds, sz, i + 1, remaining - sz(ds[i].typetag))
  }

  /** Globals and locals: indices are the sizes of the earlier declarations
      summed, starting at 0. */
  function IndexDecls(ds: seq<VarDecl>, sz: SizeOf): (r: seq<VarDecl>)
    ensures |r| == |ds|
    ensures forall i :: 0 <= i < |ds| ==> r[i] == ds[i].(index := Prefix(ds, DeclWidth(sz), i))
  {
    IndexFrom(ds, sz, 0, 0)
  }

  /** Arguments: argument `i` gets minus the total size of arguments `i`
      and later, so that `fp + index` reaches it below the frame. */
  function IndexArgs(ds: seq<VarDecl>, sz: SizeOf): (r: seq<VarDecl>)
    ensures |r| == |ds|
    ensures forall i :: 0 <= i < |ds| ==>
      r[i] == ds[i].(index := -(Total(ds, DeclWidth(sz)) - Prefix(ds, DeclWidth(sz), i)))
  {
    IndexArgsFrom(ds, sz, 0, Total(ds, DeclWidth(sz)))
  }

  /** The argument indices tile the slots just below the frame: each
      argument ends where the next begins ... */
  lemma ArgsTileFrame(ds: seq<VarDecl>, sz: SizeOf, i: nat)
    requires i + 1 < |ds|
    ensures IndexArgs(ds, sz)[i].index + sz(ds[i].typetag) == IndexArgs(ds, sz)[i + 1].index
  {
    assert Prefix(ds, DeclWidth(sz), i + 1) == Prefix(ds, DeclWidth(sz), i) + sz(ds[i].typetag);
  }

  /** ... and the last one ends at the frame, index 0. */
  lemma LastArgEndsAtFrame(ds: seq<VarDecl>, sz: SizeOf)
    requires |ds| > 0
    ensures IndexArgs(ds, sz)[|ds| - 1].index + sz(ds[|ds| - 1].typetag) == 0
  {
    assert Total(ds, DeclWidth(sz)) == Prefix(ds, DeclWidth(sz), |ds| - 1) + sz(ds[|ds| - 1].typetag);
  }

  /** The first argument is the most negative, at minus the total argument
      size, and an argument of positive size has a negative index. */
  lemma ArgsBelowFrame(ds: seq<VarDecl>, sz: SizeOf)
    ensures |ds| > 0 ==> IndexArgs(ds, sz)[0].index + Total(ds, DeclWidth(sz)) == 0
    ensures forall i :: 0 <= i < |ds| ==> IndexArgs(ds, sz)[0].index <= IndexArgs(ds, sz)[i].index
    ensures forall i :: 0 <= i < |ds| && sz(ds[i].typetag) > 0 ==> IndexArgs(ds, sz)[i].index < 0
  {
    var r := IndexArgs(ds, sz);
    forall i | 0 <= i < |ds|
      ensures r[0].index <= r[i].index
      ensures sz(ds[i].typetag) > 0 ==> r[i].index < 0
    {
      PrefixMonotone(ds, DeclWidth(sz), i, |ds|);
      PrefixMonotone(ds, DeclWidth(sz), 0, i);
    }
  }

  /** The symbol table as the index pass sees it. */
  datatype SymbolTable = SymbolTable(globals: seq<VarDecl>, functions: seq<FuncDecl>, usertypes: seq<Typetag>)

  /** ResolveVariableIndices: globals get running indices; every normal
      function's arguments get negative indices and its locals running
      indices; externs are left alone. */
  function ResolveVariableIndices(t: SymbolTable, sz: SizeOf): (r: SymbolTable)
    ensures |r.globals| == |t.globals| && |r.functions| == |t.functions| && r.usertypes == t.usertypes
    ensures forall i :: 0 <= i < |t.globals| ==>
      r.globals[i] == t.globals[i].(index := Prefix(t.globals, DeclWidth(sz), i))
    ensures forall i :: 0 <= i < |t.functions| && t.functions[i].extern ==> r.functions[i] == t.functions[i]
    ensures forall i :: 0 <= i < |t.functions| && !t.functions[i].extern ==>
      r.functions[i] == t.functions[i].(args := IndexArgs(t.functions[i].args, sz),
                                        locals := IndexDecls(t.functions[i].locals, sz))
  {
    SymbolTable(
      IndexDecls(t.globals, sz),
      seq(|t.functions|, i requires 0 <= i < |t.functions| =>
        var f := t.functions[i];
        if f.extern then f else f.(args := IndexArgs(f.args, sz), locals := IndexDecls(f.locals, sz))),
      t.usertypes)
  }
}
