/** Domain bindings: the sorted linked list of intl/bindtextdom.c, and the map it stands for. */
module Bindings {
  import opened CStrings
  import opened Wrappers

  /** What is bound to a domain name. */
  datatype Value = Value(dirname: string, codeset: Option<string>, codesetCntr: nat)

  /** An in-out argument: no pointer, a pointer to NULL (a query), or a pointer to a new value. */
  datatype Arg = Absent | Query | Set(value: string)

  type Table = map<string, Value>

  // ----- the map -----

  /** The value an existing binding gets. */
  function Rebound(v: Value, dir: Arg, codeset: Arg): Value {
    var v1 := if dir.Set? then v.(dirname := dir.value) else v;
    if codeset.Set? && v.codeset != Some(codeset.value)
    then v1.(codeset := Some(codeset.value), codesetCntr := v.codesetCntr + 1)
    else v1
  }

  /** The value a new binding gets. */
  function NewlyBound(dir: Arg, codeset: Arg, defaultDir: string): Value {
    Value(if dir.Set? then dir.value else defaultDir,
          if codeset.Set? then Some(codeset.value) else None,
          if codeset.Set? then 1 else 0)
  }

  /** `set_binding_values` on the map. */
  function Bind(t: Table, name: string, dir: Arg, codeset: Arg, defaultDir: string): Table {
    if name == "" then t
    else if name in t then t[name := Rebound(t[name], dir, codeset)]
    else if dir.Set? || codeset.Set? then t[name := NewlyBound(dir, codeset, defaultDir)]
    else t
  }

  /** The values handed back through the in-out arguments. */
  function Returned(t: Table, name: string, dir: Arg, codeset: Arg, defaultDir: string)
    : (Option<string>, Option<string>)
  {
    if name == "" then (None, None)
    else
      var t' := Bind(t, name, dir, codeset, defaultDir);
      (if dir.Absent? then None else if name in t' then Some(t'[name].dirname) else Some(defaultDir),
       if codeset.Absent? || name !in t' then None else t'[name].codeset)
  }

  // ----- the list -----

  class Binding {
    const domainname: string
    var next: Binding?
    var dirname: string
    var codeset: Option<string>
    var codesetCntr: nat

    constructor (name: string, v: Value)
      ensures domainname == name && next == null
      ensures dirname == v.dirname && codeset == v.codeset && codesetCntr == v.codesetCntr
    {
      domainname, next := name, null;
      dirname, codeset, codesetCntr := v.dirname, v.codeset, v.codesetCntr;
    }

    function Val(): Value
      reads this
    {
      Value(dirname, codeset, codesetCntr)
    }

    /** Overwrite what differs from the new values. */
    method Rebind(dir: Arg, codeset: Arg) returns (modified: bool)
      modifies this`dirname, this`codeset, this`codesetCntr
      ensures Val() == Rebound(old(Val()), dir, codeset)
      ensures modified <==> Val() != old(Val())
    {
      modified := false;
      if dir.Set? && dir.value != dirname {
        dirname := dir.value;
        modified := true;
      }
      if codeset.Set? && (this.codeset == None || codeset.value != this.codeset.value) {
        this.codeset := Some(codeset.value);
        codesetCntr := codesetCntr + 1;
        modified := true;
      }
    }
  }

  // ----- the list as a sequence of values -----

  datatype Rec = Rec(name: string, value: Value)

  /** Names in strictly ascending order. */
  ghost predicate Ordered(recs: seq<Rec>) {
    forall i, j :: 0 <= i < j < |recs| ==> StrCmp(recs[i].name, recs[j].name) < 0
  }

  /** The map that a list stands for. */
  function TableOf(recs: seq<Rec>): Table {
    if recs == [] then map[] else TableOf(recs[..|recs| - 1])[recs[|recs| - 1].name := recs[|recs| - 1].value]
  }

  lemma {:induction false} Stored(recs: seq<Rec>, i: nat)
    requires Ordered(recs) && i < |recs|
    ensures recs[i].name in TableOf(recs) && TableOf(recs)[recs[i].name] == recs[i].value
  {
    hide StrCmp;
    var n := |recs| - 1;
    if i < n {
      StrCmpEqual(recs[i].name, recs[n].name);
      Stored(recs[..n], i);
    }
  }

  lemma {:induction false} Position(recs: seq<Rec>, x: string) returns (i: nat)
    requires x in TableOf(recs)
    ensures i < |recs| && recs[i].name == x
  {
    var n := |recs| - 1;
    if recs[n].name == x {
      i := n;
    } else {
      i := Position(recs[..n], x);
    }
  }

  /** `name` belongs strictly between the records before and from position `k`. */
  ghost predicate Fits(recs: seq<Rec>, name: string, k: nat) {
    && k <= |recs|
    && (forall i :: 0 <= i < k ==> StrCmp(recs[i].name, name) < 0)
    && (forall i :: k <= i < |recs| ==> StrCmp(name, recs[i].name) < 0)
  }

  /** Comparing with the next record only is enough. */
  lemma FitsFrom(recs: seq<Rec>, name: string, k: nat)
    requires Ordered(recs) && k <= |recs|
    requires forall i :: 0 <= i < k ==> StrCmp(recs[i].name, name) < 0
    requires k < |recs| ==> StrCmp(name, recs[k].name) < 0
    ensures Fits(recs, name, k)
  {
    hide StrCmp;
    forall i | k < i < |recs|
      ensures StrCmp(name, recs[i].name) < 0
    {
      StrCmpTransitive(name, recs[k].name, recs[i].name);
    }
  }

  lemma FitsMeansAbsent(recs: seq<Rec>, name: string, k: nat)
    requires Fits(recs, name, k)
    ensures name !in TableOf(recs)
  {
    hide StrCmp, TableOf;
    StrCmpEqual(name, name);
    if name in TableOf(recs) {
      var i := Position(recs, name);
    }
  }

  function Inserted(recs: seq<Rec>, r: Rec, k: nat): seq<Rec>
    requires k <= |recs|
  {
    recs[..k] + [r] + recs[k..]
  }

  lemma InsertedOrdered(recs: seq<Rec>, r: Rec, k: nat)
    requires Ordered(recs) && Fits(recs, r.name, k)
    ensures Ordered(Inserted(recs, r, k))
  {
    hide StrCmp;
  }

  lemma InsertedTable(recs: seq<Rec>, r: Rec, k: nat)
    requires Ordered(recs) && Fits(recs, r.name, k)
    ensures Ordered(Inserted(recs, r, k))
    ensures TableOf(Inserted(recs, r, k)) == TableOf(recs)[r.name := r.value]
  {
    hide StrCmp, TableOf;
    var after := Inserted(recs, r, k);
    InsertedOrdered(recs, r, k);
    hide Ordered, Fits;
    Stored(after, k);
    forall x | x in TableOf(recs)
      ensures x in TableOf(after) && (x != r.name ==> TableOf(after)[x] == TableOf(recs)[x])
    {
      var i := Position(recs, x);
      Stored(recs, i);
      Stored(after, if i < k then i else i + 1);
    }
    forall x | x in TableOf(after)
      ensures x in TableOf(recs)[r.name := r.value]
    {
      var i := Position(after, x);
      if i != k {
        Stored(recs, if i < k then i else i - 1);
      }
    }
  }

  lemma UpdatedTable(recs: seq<Rec>, k: nat, v: Value)
    requires Ordered(recs) && k < |recs|
    ensures Ordered(recs[k := Rec(recs[k].name, v)])
    ensures TableOf(recs[k := Rec(recs[k].name, v)]) == TableOf(recs)[recs[k].name := v]
  {
    hide StrCmp, TableOf;
    var after := recs[k := Rec(recs[k].name, v)];
    assert forall i :: 0 <= i < |recs| ==> after[i].name == recs[i].name;
    hide Ordered;
    Stored(after, k);
    Stored(recs, k);
    forall x | x in TableOf(recs)
      ensures x in TableOf(after) && (x != recs[k].name ==> TableOf(after)[x] == TableOf(recs)[x])
    {
      var i := Position(recs, x);
      Stored(recs, i);
      Stored(after, i);
    }
    forall x | x in TableOf(after)
      ensures x in TableOf(recs)
    {
      var i := Position(after, x);
      Stored(recs, i);
    }
  }

  lemma TableChanged(t: Table, name: string, v: Value)
    requires name in t
    ensures t[name := v] == t <==> t[name] == v
  {
  }

  // ----- the list in memory: `_nl_domain_bindings` -----

  ghost function NodeAt(nodes: seq<Binding>, i: nat): Binding? {
    if i < |nodes| then nodes[i] else null
  }

  /** `nodes` is the chain that starts at `head`, without repetition. */
  ghost predicate Chain(head: Binding?, nodes: seq<Binding>)
    reads nodes
  {
    && head == NodeAt(nodes, 0)
    && (forall i {:trigger nodes[i].next} :: 0 <= i < |nodes| ==> nodes[i].next == NodeAt(nodes, i + 1))
    && (forall i, j :: 0 <= i < j < |nodes| ==> nodes[i] != nodes[j])
  }

  /** The nodes hold `recs`. */
  ghost predicate Stores(nodes: seq<Binding>, recs: seq<Rec>)
    reads nodes
  {
    && |nodes| == |recs|
    && forall i :: 0 <= i < |nodes| ==> nodes[i].domainname == recs[i].name && nodes[i].Val() == recs[i].value
  }

  lemma StoresAlike(nodes: seq<Binding>, recs: seq<Rec>)
    requires Stores(nodes, recs)
    ensures |nodes| == |recs|
  {
  }

  lemma StoresInserted(nodes: seq<Binding>, recs: seq<Rec>, b: Binding, v: Value, k: nat)
    requires Stores(nodes, recs) && k <= |nodes| && b.Val() == v
    ensures Stores(nodes[..k] + [b] + nodes[k..], Inserted(recs, Rec(b.domainname, v), k))
  {
  }

  /** Two pointers are enough to take a new node into a chain. */
  lemma LinkedIn(head: Binding?, before: seq<Binding>, b: Binding, k: nat)
    requires k <= |before| && b !in before && b.next == NodeAt(before, k)
    requires forall i, j :: 0 <= i < j < |before| ==> before[i] != before[j]
    requires forall i {:trigger before[i].next} :: 0 <= i < |before| ==>
               before[i].next == if i + 1 == k then b else NodeAt(before, i + 1)
    requires head == if k == 0 then b else NodeAt(before, 0)
    ensures Chain(head, before[..k] + [b] + before[k..])
  {
  }

  class BindingList {
    const defaultDir: string
    var head: Binding?
    ghost var nodes: seq<Binding>
    ghost var recs: seq<Rec>

    ghost predicate Valid()
      reads this, nodes
    {
      Chain(head, nodes) && Stores(nodes, recs) && Ordered(recs)
    }

    constructor (dir: string)
      ensures Valid() && recs == [] && defaultDir == dir && nodes == []
    {
      defaultDir, head, nodes, recs := dir, null, [], [];
    }

    /** The search with early exit that `set_binding_values` and `DCIGETTEXT` share. */
    method Find(name: string) returns (binding: Binding?, ghost k: nat)
      requires Valid()
      ensures binding == null <==> name !in TableOf(recs)
      ensures binding != null ==>
        && k < |nodes| && binding == nodes[k] && binding.domainname == name
        && name in TableOf(recs) && binding.Val() == TableOf(recs)[name]
      ensures binding == null ==> Fits(recs, name, k)
    {
      hide StrCmp, TableOf;
      binding, k := head, 0;
      while binding != null
        invariant k <= |nodes| && binding == NodeAt(nodes, k)
        invariant forall i :: 0 <= i < k ==> StrCmp(recs[i].name, name) < 0
        decreases |nodes| - k
      {
        var compare := StrCmp(name, binding.domainname);
        StrCmpEqual(name, binding.domainname);
        if compare == 0 {
          Stored(recs, k);
          return;
        }
        if compare < 0 {
          FitsFrom(recs, name, k);
          FitsMeansAbsent(recs, name, k);
          return null, k;
        }
        StrCmpMirror(recs[k].name, name);
        binding := binding.next;
        k := k + 1;
      }
      FitsFrom(recs, name, k);
      FitsMeansAbsent(recs, name, k);
    }

    /** Overwrite the fields of node `k`. */
    method Rebind(binding: Binding, ghost k: nat, dir: Arg, codeset: Arg) returns (modified: bool)
      requires Valid() && k < |nodes| && binding == nodes[k]
      modifies this`recs, binding`dirname, binding`codeset, binding`codesetCntr
      ensures Valid() && nodes == old(nodes)
      ensures recs == old(recs)[k := Rec(binding.domainname, Rebound(old(recs)[k].value, dir, codeset))]
      ensures modified <==> recs[k].value != old(recs)[k].value
    {
      hide StrCmp, Rebound;
      modified := binding.Rebind(dir, codeset);
      UpdatedTable(recs, k, binding.Val());
      recs := recs[k := Rec(binding.domainname, binding.Val())];
    }

    /** Chain a new node in at place `k`. */
    method Link(newBinding: Binding, ghost k: nat)
      requires Valid() && Fits(recs, newBinding.domainname, k) && newBinding !in nodes
      modifies this`head, newBinding`next, nodes
      ensures Chain(head, nodes[..k] + [newBinding] + nodes[k..])
      ensures Stores(nodes, recs) && newBinding.Val() == old(newBinding.Val())
    {
      hide StrCmp;
      if head == null || StrCmp(newBinding.domainname, head.domainname) < 0 {
        AtHead(newBinding.domainname, k);
        newBinding.next := head;
        head := newBinding;
      } else {
        HeadBelow(newBinding.domainname, k);
        var binding := Predecessor(newBinding.domainname, k);
        newBinding.next := binding.next;
        binding.next := newBinding;
      }
      LinkedIn(head, nodes, newBinding, k);
    }

    /** The node after which the new one goes. */
    method Predecessor(name: string, ghost k: nat) returns (binding: Binding)
      requires Valid() && Fits(recs, name, k) && k > 0
      ensures binding == nodes[k - 1]
    {
      hide StrCmp;
      binding := head;
      ghost var i := 0;
      while binding.next != null && StrCmp(name, binding.next.domainname) > 0
        invariant 0 <= i < k && binding == nodes[i]
        decreases k - i
      {
        StrCmpMirror(recs[i + 1].name, name);
        StrCmpMirror(name, recs[i + 1].name);
        binding := binding.next;
        i := i + 1;
      }
      if i + 1 < k {
        StrCmpMirror(recs[i + 1].name, name);
      }
    }

    lemma AtHead(name: string, k: nat)
      requires Valid() && Fits(recs, name, k) && (head == null || StrCmp(name, head.domainname) < 0)
      ensures k == 0
    {
      if k > 0 {
        StrCmpMirror(recs[0].name, name);
      }
    }

    lemma HeadBelow(name: string, k: nat)
      requires Valid() && Fits(recs, name, k) && head != null && StrCmp(name, head.domainname) >= 0
      ensures k > 0
    {
    }

    /** Splice a new node in at its place. */
    method Insert(name: string, v: Value, ghost k: nat)
      requires Valid() && Fits(recs, name, k)
      modifies this`head, this`nodes, this`recs, nodes
      ensures Valid() && recs == Inserted(old(recs), Rec(name, v), k)
      ensures forall b :: b in nodes ==> b in old(nodes) || fresh(b)
    {
      hide StrCmp, Ordered, Chain, Stores;
      InsertedOrdered(recs, Rec(name, v), k);
      StoresAlike(nodes, recs);
      ghost var before := nodes;
      var newBinding := new Binding(name, v);
      Link(newBinding, k);
      StoresInserted(nodes, recs, newBinding, v, k);
      nodes, recs := before[..k] + [newBinding] + before[k..], Inserted(recs, Rec(name, v), k);
    }

    /** `set_binding_values`; `modified` tells whether the catalogue counter has to move. */
    method SetBindingValues(domainname: Option<string>, dir: Arg, codeset: Arg)
      returns (dirOut: Option<string>, codesetOut: Option<string>, modified: bool)
      requires Valid()
      modifies this, nodes
      ensures Valid() && forall b :: b in nodes ==> b in old(nodes) || fresh(b)
      ensures TableOf(recs) == Bind(TableOf(old(recs)), domainname.GetOr(""), dir, codeset, defaultDir)
      ensures (dirOut, codesetOut) == Returned(TableOf(old(recs)), domainname.GetOr(""), dir, codeset, defaultDir)
      ensures modified <==> TableOf(recs) != TableOf(old(recs))
    {
      hide StrCmp, TableOf;
      modified := false;
      if domainname == None || domainname.value == "" {
        return None, None, false;
      }
      var name := domainname.value;
      var binding, k := Find(name);
      if binding != null {
        UpdatedTable(recs, k, Rebound(recs[k].value, dir, codeset));
        TableChanged(TableOf(recs), name, Rebound(recs[k].value, dir, codeset));
        modified := Rebind(binding, k, dir, codeset);
        dirOut := if dir.Absent? then None else Some(binding.dirname);
        codesetOut := if codeset.Absent? then None else binding.codeset;
      } else if !dir.Set? && !codeset.Set? {
        dirOut := if dir.Absent? then None else Some(defaultDir);
        codesetOut := None;
      } else {
        var v := NewlyBound(dir, codeset, defaultDir);
        InsertedTable(recs, Rec(name, v), k);
        Insert(name, v, k);
        dirOut := if dir.Absent? then None else Some(v.dirname);
        codesetOut := if codeset.Absent? then None else v.codeset;
        modified := true;
      }
    }
  }
}
