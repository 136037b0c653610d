/**
 matiec's decomposition of a variable name such as window.points[1].coordinate.x into its
 components (matiec_src/absyntax_utils/decompose_var_instance_name.cc). The syntax tree is
 nested to the left, so every call walks it again from the top to find the next component.
 */
module VarNames {

  /** The identity of an identifier object, and of a subscript list. */
  type Name = nat
  type Subscripts = nat

  datatype Option<T> = None | Some(value: T)

  /**
   A leaf stands for the identifier, symbolic variable, directly represented variable or
   instruction-list operator at the bottom of the tree.
   */
  datatype Var =
    | Leaf(name: Name)
    | Array(variable: Var, subscripts: Subscripts)
    | Structured(record: Var, field: Name)

  // ---------- the components, left to right ----------

  datatype Part = Part(name: Name, subscripts: Option<Subscripts>)

  /** Of several array levels on one component the innermost is the one exposed. */
  function OrElse(inner: Option<Subscripts>, outer: Option<Subscripts>): Option<Subscripts> {
    if inner.Some? then inner else outer
  }

  function Parts(v: Var): (parts: seq<Part>)
    ensures |parts| >= 1
  {
    match v
    case Leaf(name) => [Part(name, None)]
    case Array(a, s) =>
      var parts := Parts(a);
      var last := parts[|parts| - 1];
      parts[|parts| - 1 := last.(subscripts := OrElse(last.subscripts, Some(s)))]
    case Structured(r, f) => Parts(r) + [Part(f, None)]
  }

  /** The record selections of the tree, innermost first. */
  function Nodes(v: Var): (nodes: seq<Var>)
    ensures |nodes| == |Parts(v)| - 1
    ensures forall x :: x in nodes ==> x.Structured?
  {
    match v
    case Leaf(_) => []
    case Array(a, _) => Nodes(a)
    case Structured(r, _) => Nodes(r) + [v]
  }

  // ---------- one walk from the top ----------

  datatype Walk = Walk(name: Name, subscripts: Option<Subscripts>, recursive: Option<Var>)

  /** The visitors, with the cursor `next` and the two fields they update. */
  function Visited(v: Var, next: Option<Var>, subscripts: Option<Subscripts>, recursive: Option<Var>): Walk {
    match v
    case Leaf(name) => Walk(name, subscripts, recursive)
    case Array(a, s) => Visited(a, next, Some(s), recursive)
    case Structured(r, f) =>
      if next == Some(v) then Walk(f, subscripts, recursive) else Visited(r, next, None, Some(v))
  }

  function Height(v: Var): nat {
    match v
    case Leaf(_) => 0
    case Array(a, _) => Height(a)
    case Structured(r, _) => Height(r) + 1
  }

  lemma {:induction false} NodesAreLower(v: Var, k: nat)
    requires k < |Nodes(v)|
    ensures Height(Nodes(v)[k]) == k + 1 && Height(v) == |Nodes(v)|
  {
    match v
    case Array(a, _) => NodesAreLower(a, k);
    case Structured(r, _) =>
      if k < |Nodes(r)| { NodesAreLower(r, k); }
      if |Nodes(r)| == 0 { NoNodes(r); } else { NodesAreLower(r, 0); }
  }

  lemma {:induction false} NoNodes(v: Var)
    requires |Nodes(v)| == 0
    ensures Height(v) == 0
  {
    if v.Array? { NoNodes(v.variable); }
  }

  /** A walk without a cursor ends at the first component and remembers the innermost selection. */
  lemma {:induction false} WalkToFirst(v: Var, s: Option<Subscripts>, recursive: Option<Var>)
    ensures var w := Visited(v, None, s, recursive);
      && w.name == Parts(v)[0].name
      && w.subscripts == (if |Parts(v)| == 1 then OrElse(Parts(v)[0].subscripts, s) else Parts(v)[0].subscripts)
      && w.recursive == (if Nodes(v) == [] then recursive else Some(Nodes(v)[0]))
  {
    match v
    case Leaf(_) =>
    case Array(a, t) => WalkToFirst(a, Some(t), recursive);
    case Structured(r, _) => WalkToFirst(r, None, Some(v));
  }

  /** A walk with the cursor on a selection yields its field and remembers the next one outwards. */
  lemma {:induction false} WalkToNode(v: Var, k: nat, s: Option<Subscripts>, recursive: Option<Var>)
    requires k < |Nodes(v)|
    ensures var w := Visited(v, Some(Nodes(v)[k]), s, recursive);
      && w.name == Parts(v)[k + 1].name
      && w.subscripts ==
           (if k + 2 == |Parts(v)| then OrElse(Parts(v)[k + 1].subscripts, s) else Parts(v)[k + 1].subscripts)
      && w.recursive == (if k + 1 == |Nodes(v)| then recursive else Some(Nodes(v)[k + 1]))
  {
    match v
    case Array(a, t) => WalkToNode(a, k, Some(t), recursive);
    case Structured(r, _) =>
      NodesAreLower(v, k);
      if k < |Nodes(r)| { WalkToNode(r, k, None, Some(v)); }
  }

  // ---------- successive calls ----------

  function Min(a: nat, b: nat): nat {
    if a < b then a else b
  }

  /** The component that call number `call` looks at, counting from zero; the last one stays. */
  function At(v: Var, call: nat): Part {
    Parts(v)[Min(call, |Parts(v)| - 1)]
  }

  /** The cursor before call number `call`. */
  function Cursor(v: Var, call: nat): Option<Var> {
    if call == 0 || Nodes(v) == [] then None else Some(Nodes(v)[Min(call, |Nodes(v)|) - 1])
  }

  lemma WalkOfCall(v: Var, call: nat)
    ensures var w := Visited(v, Cursor(v, call), None, Cursor(v, call));
      && w.name == At(v, call).name
      && w.subscripts == At(v, call).subscripts
      && w.recursive == Cursor(v, call + 1)
  {
    if call == 0 || Nodes(v) == [] {
      WalkToFirst(v, None, None);
    } else {
      WalkToNode(v, Min(call, |Nodes(v)|) - 1, None, Cursor(v, call));
    }
  }

  /** What call number `call` returns. */
  function Returned(v: Var, call: nat): Option<Name> {
    if call > 0 && At(v, call - 1).name == At(v, call).name then None else Some(At(v, call).name)
  }

  class Decomposer {
    const variableName: Var
    var nextVariableName: Option<Var>
    var currentRecursive: Option<Var>
    var previouslyReturned: Option<Name>
    var currentSubscripts: Option<Subscripts>
    ghost var calls: nat

    ghost predicate Valid()
      reads this
    {
      && nextVariableName == currentRecursive == Cursor(variableName, calls)
      && previouslyReturned == (if calls == 0 then None else Some(At(variableName, calls - 1).name))
      && currentSubscripts == (if calls == 0 then None else At(variableName, calls - 1).subscripts)
    }

    constructor (v: Var)
      ensures Valid() && variableName == v && calls == 0
    {
      variableName := v;
      nextVariableName, currentRecursive, previouslyReturned, currentSubscripts := None, None, None, None;
      calls := 0;
    }

    /** The visit methods */
    method Visit(symbol: Var) returns (res: Name)
      modifies this`currentSubscripts, this`currentRecursive
      ensures Walk(res, currentSubscripts, currentRecursive) ==
        Visited(symbol, nextVariableName, old(currentSubscripts), old(currentRecursive))
    {
      match symbol
      case Leaf(name) =>
        res := name;
      case Array(variable, subscripts) =>
        currentSubscripts := Some(subscripts);
        res := Visit(variable);
      case Structured(record, field) =>
        if nextVariableName == Some(symbol) {
          return field;
        }
        currentSubscripts := None;
        currentRecursive := Some(symbol);
        res := Visit(record);
    }

    /** get_next */
    method GetNext() returns (part: Option<Name>)
      requires Valid()
      modifies this
      ensures Valid() && calls == old(calls) + 1
      ensures part == Returned(variableName, old(calls))
      ensures currentSubscripts == At(variableName, old(calls)).subscripts
    {
      WalkOfCall(variableName, calls);
      currentSubscripts := None;
      var res := Visit(variableName);
      nextVariableName := currentRecursive;
      calls := calls + 1;
      if previouslyReturned == Some(res) {
        return None;
      }
      previouslyReturned := Some(res);
      return Some(res);
    }

    /** get_current_arraysubs_list */
    method GetCurrentArraySubsList() returns (s: Option<Subscripts>)
      requires Valid()
      ensures s == if calls == 0 then None else At(variableName, calls - 1).subscripts
    {
      return currentSubscripts;
    }
  }

  // ---------- what the calls yield over a whole run ----------

  function Names(v: Var): seq<Name> {
    seq(|Parts(v)|, i requires 0 <= i < |Parts(v)| => Parts(v)[i].name)
  }

  /** The results of the first `n` calls. */
  function Results(v: Var, n: nat): seq<Option<Name>> {
    seq(n, i requires 0 <= i < n => Returned(v, i))
  }

  function Somes(names: seq<Name>): seq<Option<Name>> {
    seq(|names|, i requires 0 <= i < |names| => Some(names[i]))
  }

  function Nones(n: nat): seq<Option<Name>> {
    seq(n, _ => None)
  }

  /**
   The calls yield every component once, left to right, and then nothing forever, exactly when
   no identifier object is used for two components in a row.
   */
  lemma EveryPartOnce(v: Var, extra: nat)
    ensures Results(v, |Parts(v)| + extra) == Somes(Names(v)) + Nones(extra) <==>
      forall i :: 0 <= i < |Parts(v)| - 1 ==> Names(v)[i] != Names(v)[i + 1]
  {
    var n := |Parts(v)|;
    var wanted := Somes(Names(v)) + Nones(extra);
    if forall i :: 0 <= i < n - 1 ==> Names(v)[i] != Names(v)[i + 1] {
      forall c | 0 <= c < n + extra ensures Results(v, n + extra)[c] == wanted[c] {
        if 0 < c < n { assert Names(v)[c - 1] != Names(v)[c - 1 + 1]; }
        ReturnedAt(v, c);
      }
    } else {
      var i :| 0 <= i < n - 1 && Names(v)[i] == Names(v)[i + 1];
      ReturnedAt(v, i + 1);
      assert Results(v, n + extra)[i + 1] == None;
      assert wanted[i + 1] == Some(Names(v)[i + 1]);
    }
  }

  lemma ReturnedAt(v: Var, c: nat)
    ensures Returned(v, c) ==
      if c >= |Names(v)| || (c > 0 && Names(v)[c] == Names(v)[c - 1]) then None else Some(Names(v)[c])
  {
  }

  /** window.points[1].coordinate.x */
  lemma WindowExample(window: Name, points: Name, one: Subscripts, coordinate: Name, x: Name)
    ensures var v := Structured(Structured(Array(Structured(Leaf(window), points), one), coordinate), x);
      Parts(v) == [Part(window, None), Part(points, Some(one)), Part(coordinate, None), Part(x, None)]
  {
    var p := Structured(Leaf(window), points);
    assert Parts(p) == [Part(window, None), Part(points, None)];
    assert Parts(Array(p, one)) == [Part(window, None), Part(points, Some(one))];
    assert Parts(Structured(Array(p, one), coordinate)) ==
      [Part(window, None), Part(points, Some(one)), Part(coordinate, None)];
  }

  /** points[one][two], which ends in a list inside a list: the outer list is not seen, whatever the name. */
  lemma OuterListIsNotSeen(v: Var, one: Subscripts, two: Subscripts)
    ensures Parts(Array(Array(v, one), two)) == Parts(Array(v, one))
    ensures v.Leaf? ==> Parts(Array(Array(v, one), two)) == [Part(v.name, Some(one))]
  {
    var inner := Parts(Array(v, one));
    assert inner[|inner| - 1].subscripts.Some?;
    assert v.Leaf? ==> Parts(v) == [Part(v.name, None)];
  }
}
