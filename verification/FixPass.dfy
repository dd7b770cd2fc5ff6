/** The walkers of attach.c that tie every table reference of a view, index or trigger to
    one database. */
module FixPass {
  import opened CText
  import opened Wrappers

  /** A database name, or none if the SQL text gave none. */
  type Name = Option<CString>

  /** The part of a FROM-clause item that the walkers assign. */
  class TableRef {
    var zDatabase: Name

    constructor (name: Name)
      ensures zDatabase == name
    {
      zDatabase := name;
    }
  }

  // The shape of a parse tree, which the walkers leave alone. A null pointer is the
  // constructor without arguments, or an empty list.
  datatype ExprList = ExprList(a: seq<Expr>)

  datatype Expr =
    | NoExpr
    | Expr(select: Select, list: ExprList, left: Expr, right: Expr)

  datatype SrcItem = SrcItem(table: TableRef, select: Select, on: Expr)

  datatype SrcList = SrcList(a: seq<SrcItem>)

  datatype Select =
    | NoSelect
    | Select(eList: ExprList, src: SrcList, where: Expr, groupBy: ExprList, having: Expr, orderBy: ExprList,
             prior: Select)

  datatype TriggerStep =
    | NoStep
    | Step(select: Select, where: Expr, exprList: ExprList, next: TriggerStep)

  type Refs = seq<TableRef>

  // The references in the order in which the walkers visit them. GROUP BY and ORDER BY
  // clauses are not visited.

  function InExprs(es: seq<Expr>): Refs
    decreases es
  {
    if es == [] then [] else InExpr(es[0]) + InExprs(es[1..])
  }

  function InExpr(e: Expr): Refs
    decreases e
  {
    match e
    case NoExpr => []
    case Expr(s, l, left, right) => InSelect(s) + (InExprs(l.a) + (InExpr(right) + InExpr(left)))
  }

  function InItem(i: SrcItem): Refs
    decreases i
  {
    [i.table] + (InSelect(i.select) + InExpr(i.on))
  }

  function InItems(xs: seq<SrcItem>): Refs
    decreases xs
  {
    if xs == [] then [] else InItem(xs[0]) + InItems(xs[1..])
  }

  function InSelect(s: Select): Refs
    decreases s
  {
    match s
    case NoSelect => []
    case Select(e, f, w, _, h, _, p) => InExprs(e.a) + (InItems(f.a) + (InExpr(w) + (InExpr(h) + InSelect(p))))
  }

  function InSteps(t: TriggerStep): Refs
    decreases t
  {
    match t
    case NoStep => []
    case Step(s, w, l, n) => InSelect(s) + (InExpr(w) + (InExprs(l.a) + InSteps(n)))
  }

  /** No reference in a GROUP BY or ORDER BY clause is visited. */
  lemma ClausesNotVisited(s: Select, g: ExprList, o: ExprList)
    requires s.Select?
    ensures InSelect(s.(groupBy := g, orderBy := o)) == InSelect(s)
  {
  }

  /** The references as a set. */
  function Cells(refs: Refs): (s: set<TableRef>) {
    set c | c in refs
  }

  /** The reference explicitly names another database than zDb. */
  predicate Conflicts(n: Name, zDb: CString) {
    n.Some? && !SameName(n.value, zDb)
  }

  type Names = map<TableRef, Name>

  datatype Outcome = Outcome(failed: bool, names: Names)

  /** Visiting the references in order: a missing name is filled in, a conflict stops. */
  function Fix(refs: Refs, m: Names, zDb: CString): (o: Outcome)
    requires forall c :: c in refs ==> c in m
    ensures o.names.Keys == m.Keys
    decreases |refs|
  {
    if refs == [] then Outcome(false, m)
    else if Conflicts(m[refs[0]], zDb) then Outcome(true, m)
    else if m[refs[0]].None? then Fix(refs[1..], m[refs[0] := Some(zDb)], zDb)
    else Fix(refs[1..], m, zDb)
  }

  lemma {:induction false} FixAppend(a: Refs, b: Refs, m: Names, zDb: CString)
    requires forall c :: c in a + b ==> c in m
    ensures (forall c :: c in a ==> c in m) && (forall c :: c in b ==> c in m)
    ensures Fix(a + b, m, zDb) == if Fix(a, m, zDb).failed then Fix(a, m, zDb) else Fix(b, Fix(a, m, zDb).names, zDb)
    decreases |a|
  {
    assert forall c :: c in a ==> c in a + b;
    assert forall c :: c in b ==> c in a + b;
    if a == [] {
      assert a + b == b;
    } else {
      assert (a + b)[1..] == a[1..] + b;
      FixAppend(a[1..], b, if m[a[0]].None? then m[a[0] := Some(zDb)] else m, zDb);
    }
  }

  /** Visiting refs changes nothing but those references. */
  lemma {:induction false} FixInside(refs: Refs, small: Names, m: Names, zDb: CString)
    requires (forall c :: c in refs ==> c in small) && small.Keys <= m.Keys
    requires forall c :: c in small ==> m[c] == small[c]
    ensures Fix(refs, m, zDb) == Outcome(Fix(refs, small, zDb).failed, m + Fix(refs, small, zDb).names)
    decreases |refs|
  {
    if refs == [] || Conflicts(m[refs[0]], zDb) {
      assert m + small == m;
    } else if m[refs[0]].None? {
      FixInside(refs[1..], small[refs[0] := Some(zDb)], m[refs[0] := Some(zDb)], zDb);
    } else {
      FixInside(refs[1..], small, m, zDb);
    }
  }

  /** The names that the references have now. */
  function Snapshot(refs: Refs): (m: Names)
    reads refs
    ensures m.Keys == set c | c in refs
  {
    map c | c in refs :: c.zDatabase
  }

  /** The first position whose reference conflicts, or the length if there is none. */
  function FirstConflict(refs: Refs, m: Names, zDb: CString): (k: nat)
    requires forall c :: c in refs ==> c in m
    ensures k <= |refs| && (k < |refs| ==> Conflicts(m[refs[k]], zDb))
    ensures forall i :: 0 <= i < k ==> !Conflicts(m[refs[i]], zDb)
    decreases |refs|
  {
    if refs == [] || Conflicts(m[refs[0]], zDb) then 0 else 1 + FirstConflict(refs[1..], m, zDb)
  }

  lemma {:induction false} SameFirstConflict(refs: Refs, m: Names, m1: Names, zDb: CString)
    requires forall c :: c in refs ==> c in m && c in m1 && (Conflicts(m1[c], zDb) <==> Conflicts(m[c], zDb))
    ensures FirstConflict(refs, m1, zDb) == FirstConflict(refs, m, zDb)
    decreases |refs|
  {
    if refs != [] { SameFirstConflict(refs[1..], m, m1, zDb); }
  }

  lemma {:induction false} FilledDoesNotConflict(refs: Refs, m: Names, m1: Names, zDb: CString)
    requires refs != [] && forall c :: c in refs ==> c in m
    requires m1 == if m[refs[0]].None? then m[refs[0] := Some(zDb)] else m
    ensures forall c :: c in m ==> (Conflicts(m1[c], zDb) <==> Conflicts(m[c], zDb))
    ensures FirstConflict(refs[1..], m1, zDb) == FirstConflict(refs[1..], m, zDb)
  {
    SameFirstConflict(refs[1..], m, m1, zDb);
  }

  /** The pass fails exactly when a visited item explicitly names another database, and fills
      in the missing names of the items before the first such item, and nothing else. */
  lemma {:induction false} FixMeaning(refs: Refs, m: Names, zDb: CString)
    requires forall c :: c in refs ==> c in m
    ensures var o, k := Fix(refs, m, zDb), FirstConflict(refs, m, zDb);
            && (o.failed <==> exists i :: 0 <= i < |refs| && m[refs[i]].Some? && !SameName(m[refs[i]].value, zDb))
            && forall c :: c in m ==> o.names[c] == if c in refs[..k] && m[c].None? then Some(zDb) else m[c]
    decreases |refs|
  {
    if refs != [] && !Conflicts(m[refs[0]], zDb) {
      var m1 := if m[refs[0]].None? then m[refs[0] := Some(zDb)] else m;
      FixMeaning(refs[1..], m1, zDb);
      FilledDoesNotConflict(refs, m, m1, zDb);
      var k := FirstConflict(refs[1..], m, zDb);
      assert refs[..k + 1] == [refs[0]] + refs[1..][..k];
    }
  }

  /** After success every visited item names zDb, up to case. */
  lemma FixedNames(refs: Refs, m: Names, zDb: CString)
    requires (forall c :: c in refs ==> c in m) && !Fix(refs, m, zDb).failed
    ensures forall c :: c in refs ==>
      var n := Fix(refs, m, zDb).names[c];
      n.Some? && SameName(n.value, zDb) && (m[c].Some? ==> n == m[c])
  {
    FixMeaning(refs, m, zDb);
    var k := FirstConflict(refs, m, zDb);
    assert refs[..|refs|] == refs;
    forall c | c in refs ensures !Conflicts(m[c], zDb) {
      var i :| 0 <= i < |refs| && refs[i] == c;
    }
  }

  /** A second run gives the same answer and changes nothing. */
  lemma {:induction false} FixTwice(refs: Refs, m: Names, zDb: CString)
    requires forall c :: c in refs ==> c in m
    ensures var o := Fix(refs, m, zDb); Fix(refs, o.names, zDb) == o
  {
    var o, k := Fix(refs, m, zDb), FirstConflict(refs, m, zDb);
    FixMeaning(refs, m, zDb);
    SameFirstConflict(refs, m, o.names, zDb);
    FixMeaning(refs, o.names, zDb);
  }

  /** The walk over `all` has passed `done` without a conflict and still has `rest` before it;
      m0 holds the names at its start, and `now` those at present. */
  ghost predicate Walk(all: Refs, done: Refs, rest: Refs, m0: Names, now: Names, zDb: CString) {
    && all == done + rest && m0.Keys == (set c | c in all)
    && (forall c :: c in done ==> c in m0) && Fix(done, m0, zDb) == Outcome(false, now)
  }

  lemma Begin(all: Refs, m0: Names, zDb: CString)
    requires m0.Keys == set c | c in all
    ensures Walk(all, [], all, m0, m0, zDb)
  {
  }

  lemma End(all: Refs, done: Refs, m0: Names, now: Names, zDb: CString)
    requires Walk(all, done, [], m0, now, zDb)
    ensures (forall c :: c in all ==> c in m0) && Fix(all, m0, zDb) == Outcome(false, now)
  {
    assert all == done;
  }

  lemma Within(all: Refs, done: Refs, b: Refs, rest: Refs, m0: Names, now: Names, zDb: CString)
    requires Walk(all, done, b + rest, m0, now, zDb)
    ensures Cells(b) <= Cells(all)
  {
    hide Fix;
    forall c | c in b ensures c in all { assert c in b + rest; }
  }

  /** One more stretch b of the references is done: what the call says about b alone says
      how far the whole pass has come. */
  lemma Progress(all: Refs, done: Refs, b: Refs, rest: Refs, m0: Names, mid: Names, now: Names,
                 midB: Names, nowB: Names, failed: bool, zDb: CString)
    requires Walk(all, done, b + rest, m0, mid, zDb)
    requires midB.Keys == (set c | c in b) && forall c :: c in b ==> c in mid && midB[c] == mid[c]
    requires Outcome(failed, nowB) == Fix(b, midB, zDb) && now.Keys == mid.Keys
    requires forall c :: c in now ==> now[c] == if c in nowB then nowB[c] else mid[c]
    ensures !failed ==> Walk(all, done + b, rest, m0, now, zDb)
    ensures failed ==> (forall c :: c in all ==> c in m0) && Fix(all, m0, zDb) == Outcome(true, now)
  {
    hide Fix;
    assert now == mid + nowB;
    assert all == done + b + rest;
    assert forall c :: c in done + b ==> c in done + b + rest;
    FixAppend(done, b, m0, zDb);
    FixInside(b, midB, mid, zDb);
    FixAppend(done + b, rest, m0, zDb);
  }

  lemma SelectParts(p: Select)
    ensures InSelect(NoSelect) == []
    ensures p.Select? ==>
      InSelect(p)
      == InExprs(p.eList.a) + (InItems(p.src.a) + (InExpr(p.where) + (InExpr(p.having) + InSelect(p.prior))))
  {
  }

  lemma ExprParts(p: Expr)
    ensures InExpr(NoExpr) == []
    ensures p.Expr? ==> InExpr(p) == InSelect(p.select) + (InExprs(p.list.a) + (InExpr(p.right) + InExpr(p.left)))
  {
  }

  lemma ListParts(es: seq<Expr>, i: nat)
    requires i <= |es|
    ensures InExprs(es[i..]) == if i == |es| then [] else InExpr(es[i]) + InExprs(es[i + 1..])
    ensures es[0..] == es
  {
    if i < |es| { assert es[i..][1..] == es[i + 1..]; }
  }

  lemma ItemParts(xs: seq<SrcItem>, i: nat)
    requires i <= |xs|
    ensures i == |xs| ==> InItems(xs[i..]) == []
    ensures i < |xs| ==>
      InItems(xs[i..]) == [xs[i].table] + (InSelect(xs[i].select) + (InExpr(xs[i].on) + InItems(xs[i + 1..])))
    ensures xs[0..] == xs
  {
    if i < |xs| {
      assert xs[i..][1..] == xs[i + 1..];
      assert InItems(xs[i..]) == InItem(xs[i]) + InItems(xs[i + 1..]);
    }
  }

  lemma StepParts(p: TriggerStep)
    ensures InSteps(NoStep) == []
    ensures p.Step? ==> InSteps(p) == InSelect(p.select) + (InExpr(p.where) + (InExprs(p.exprList.a) + InSteps(p.next)))
  {
  }

  method FixExprList(list: ExprList, zDb: CString) returns (failed: bool)
    modifies Cells(InExprs(list.a))
    ensures Outcome(failed, Snapshot(InExprs(list.a))) == Fix(InExprs(list.a), old(Snapshot(InExprs(list.a))), zDb)
    decreases list
  {
    hide Walk, Fix, InSelect, InExpr, InExprs, InItems, InItem, InSteps;
    ghost var all, done, m0 := InExprs(list.a), [], Snapshot(InExprs(list.a));
    Begin(all, m0, zDb);
    var i := 0;
    ListParts(list.a, 0);
    while i < |list.a|
      invariant 0 <= i <= |list.a|
      invariant Walk(all, done, InExprs(list.a[i..]), m0, Snapshot(all), zDb)
    {
      ghost var b: Refs, rest: Refs, mid: Names, midB: Names;
      ListParts(list.a, i);
      b, rest := InExpr(list.a[i]), InExprs(list.a[i + 1..]);
      Within(all, done, b, rest, m0, Snapshot(all), zDb);
      mid, midB := Snapshot(all), Snapshot(b);
      failed := FixExpr(list.a[i], zDb);
      Progress(all, done, b, rest, m0, mid, Snapshot(all), midB, Snapshot(b), failed, zDb);
      if failed { return; }
      done := done + b;
      i := i + 1;
    }
    ListParts(list.a, i);
    End(all, done, m0, Snapshot(all), zDb);
    failed := false;
  }

  method FixExpr(e: Expr, zDb: CString) returns (failed: bool)
    modifies Cells(InExpr(e))
    ensures Outcome(failed, Snapshot(InExpr(e))) == Fix(InExpr(e), old(Snapshot(InExpr(e))), zDb)
    decreases e
  {
    hide Walk, Fix, InSelect, InExpr, InExprs, InItems, InItem, InSteps;
    ghost var all, done, m0 := InExpr(e), [], Snapshot(InExpr(e));
    Begin(all, m0, zDb);
    var p := e;
    while p != NoExpr
      invariant p == e || p < e
      invariant Walk(all, done, InExpr(p), m0, Snapshot(all), zDb)
      decreases p
    {
      ghost var b: Refs, rest: Refs, mid: Names, midB: Names;
      ExprParts(p);
      b, rest := InSelect(p.select), InExprs(p.list.a) + (InExpr(p.right) + InExpr(p.left));
      Within(all, done, b, rest, m0, Snapshot(all), zDb);
      mid, midB := Snapshot(all), Snapshot(b);
      failed := FixSelect(p.select, zDb);
      Progress(all, done, b, rest, m0, mid, Snapshot(all), midB, Snapshot(b), failed, zDb);
      if failed { return; }
      done := done + b;
      b, rest := InExprs(p.list.a), InExpr(p.right) + InExpr(p.left);
      Within(all, done, b, rest, m0, Snapshot(all), zDb);
      mid, midB := Snapshot(all), Snapshot(b);
      failed := FixExprList(p.list, zDb);
      Progress(all, done, b, rest, m0, mid, Snapshot(all), midB, Snapshot(b), failed, zDb);
      if failed { return; }
      done := done + b;
      b, rest := InExpr(p.right), InExpr(p.left);
      Within(all, done, b, rest, m0, Snapshot(all), zDb);
      mid, midB := Snapshot(all), Snapshot(b);
      failed := FixExpr(p.right, zDb);
      Progress(all, done, b, rest, m0, mid, Snapshot(all), midB, Snapshot(b), failed, zDb);
      if failed { return; }
      done := done + b;
      p := p.left;
    }
    ExprParts(p);
    End(all, done, m0, Snapshot(all), zDb);
    failed := false;
  }

  /** The part of sqlite3FixSrcList that looks at one item's own name. */
  method FixName(t: TableRef, zDb: CString) returns (failed: bool)
    modifies t
    ensures Outcome(failed, Snapshot([t])) == Fix([t], old(Snapshot([t])), zDb)
  {
    failed := false;
    if t.zDatabase.None? {
      t.zDatabase := Some(zDb);
    } else if !SameName(t.zDatabase.value, zDb) {
      failed := true;
    }
  }

  method FixSrcList(list: SrcList, zDb: CString) returns (failed: bool)
    modifies Cells(InItems(list.a))
    ensures Outcome(failed, Snapshot(InItems(list.a))) == Fix(InItems(list.a), old(Snapshot(InItems(list.a))), zDb)
    decreases list
  {
    hide Walk, Fix, InSelect, InExpr, InExprs, InItems, InItem, InSteps;
    ghost var all, done, m0 := InItems(list.a), [], Snapshot(InItems(list.a));
    Begin(all, m0, zDb);
    var i := 0;
    ItemParts(list.a, 0);
    while i < |list.a|
      invariant 0 <= i <= |list.a|
      invariant Walk(all, done, InItems(list.a[i..]), m0, Snapshot(all), zDb)
    {
      ghost var b: Refs, rest: Refs, mid: Names, midB: Names;
      ItemParts(list.a, i);
      var item := list.a[i];
      b, rest := [item.table], InSelect(item.select) + (InExpr(item.on) + InItems(list.a[i + 1..]));
      Within(all, done, b, rest, m0, Snapshot(all), zDb);
      mid, midB := Snapshot(all), Snapshot(b);
      failed := FixName(item.table, zDb);
      Progress(all, done, b, rest, m0, mid, Snapshot(all), midB, Snapshot(b), failed, zDb);
      if failed { return; }
      done := done + b;
      b, rest := InSelect(item.select), InExpr(item.on) + InItems(list.a[i + 1..]);
      Within(all, done, b, rest, m0, Snapshot(all), zDb);
      mid, midB := Snapshot(all), Snapshot(b);
      failed := FixSelect(item.select, zDb);
      Progress(all, done, b, rest, m0, mid, Snapshot(all), midB, Snapshot(b), failed, zDb);
      if failed { return; }
      done := done + b;
      b, rest := InExpr(item.on), InItems(list.a[i + 1..]);
      Within(all, done, b, rest, m0, Snapshot(all), zDb);
      mid, midB := Snapshot(all), Snapshot(b);
      failed := FixExpr(item.on, zDb);
      Progress(all, done, b, rest, m0, mid, Snapshot(all), midB, Snapshot(b), failed, zDb);
      if failed { return; }
      done := done + b;
      i := i + 1;
    }
    ItemParts(list.a, i);
    End(all, done, m0, Snapshot(all), zDb);
    failed := false;
  }

  method FixSelect(s: Select, zDb: CString) returns (failed: bool)
    modifies Cells(InSelect(s))
    ensures Outcome(failed, Snapshot(InSelect(s))) == Fix(InSelect(s), old(Snapshot(InSelect(s))), zDb)
    decreases s
  {
    hide Walk, Fix, InSelect, InExpr, InExprs, InItems, InItem, InSteps;
    ghost var all, done, m0 := InSelect(s), [], Snapshot(InSelect(s));
    Begin(all, m0, zDb);
    var p := s;
    while p != NoSelect
      invariant p == s || p < s
      invariant Walk(all, done, InSelect(p), m0, Snapshot(all), zDb)
      decreases p
    {
      ghost var b: Refs, rest: Refs, mid: Names, midB: Names;
      SelectParts(p);
      b, rest := InExprs(p.eList.a), InItems(p.src.a) + (InExpr(p.where) + (InExpr(p.having) + InSelect(p.prior)));
      Within(all, done, b, rest, m0, Snapshot(all), zDb);
      mid, midB := Snapshot(all), Snapshot(b);
      failed := FixExprList(p.eList, zDb);
      Progress(all, done, b, rest, m0, mid, Snapshot(all), midB, Snapshot(b), failed, zDb);
      if failed { return; }
      done := done + b;
      b, rest := InItems(p.src.a), InExpr(p.where) + (InExpr(p.having) + InSelect(p.prior));
      Within(all, done, b, rest, m0, Snapshot(all), zDb);
      mid, midB := Snapshot(all), Snapshot(b);
      failed := FixSrcList(p.src, zDb);
      Progress(all, done, b, rest, m0, mid, Snapshot(all), midB, Snapshot(b), failed, zDb);
      if failed { return; }
      done := done + b;
      b, rest := InExpr(p.where), InExpr(p.having) + InSelect(p.prior);
      Within(all, done, b, rest, m0, Snapshot(all), zDb);
      mid, midB := Snapshot(all), Snapshot(b);
      failed := FixExpr(p.where, zDb);
      Progress(all, done, b, rest, m0, mid, Snapshot(all), midB, Snapshot(b), failed, zDb);
      if failed { return; }
      done := done + b;
      b, rest := InExpr(p.having), InSelect(p.prior);
      Within(all, done, b, rest, m0, Snapshot(all), zDb);
      mid, midB := Snapshot(all), Snapshot(b);
      failed := FixExpr(p.having, zDb);
      Progress(all, done, b, rest, m0, mid, Snapshot(all), midB, Snapshot(b), failed, zDb);
      if failed { return; }
      done := done + b;
      p := p.prior;
    }
    SelectParts(p);
    End(all, done, m0, Snapshot(all), zDb);
    failed := false;
  }

  method FixTriggerStep(t: TriggerStep, zDb: CString) returns (failed: bool)
    modifies Cells(InSteps(t))
    ensures Outcome(failed, Snapshot(InSteps(t))) == Fix(InSteps(t), old(Snapshot(InSteps(t))), zDb)
  {
    hide Walk, Fix, InSelect, InExpr, InExprs, InItems, InItem, InSteps;
    ghost var all, done, m0 := InSteps(t), [], Snapshot(InSteps(t));
    Begin(all, m0, zDb);
    var p := t;
    while p != NoStep
      invariant Walk(all, done, InSteps(p), m0, Snapshot(all), zDb)
      decreases p
    {
      ghost var b: Refs, rest: Refs, mid: Names, midB: Names;
      StepParts(p);
      b, rest := InSelect(p.select), InExpr(p.where) + (InExprs(p.exprList.a) + InSteps(p.next));
      Within(all, done, b, rest, m0, Snapshot(all), zDb);
      mid, midB := Snapshot(all), Snapshot(b);
      failed := FixSelect(p.select, zDb);
      Progress(all, done, b, rest, m0, mid, Snapshot(all), midB, Snapshot(b), failed, zDb);
      if failed { return; }
      done := done + b;
      b, rest := InExpr(p.where), InExprs(p.exprList.a) + InSteps(p.next);
      Within(all, done, b, rest, m0, Snapshot(all), zDb);
      mid, midB := Snapshot(all), Snapshot(b);
      failed := FixExpr(p.where, zDb);
      Progress(all, done, b, rest, m0, mid, Snapshot(all), midB, Snapshot(b), failed, zDb);
      if failed { return; }
      done := done + b;
      b, rest := InExprs(p.exprList.a), InSteps(p.next);
      Within(all, done, b, rest, m0, Snapshot(all), zDb);
      mid, midB := Snapshot(all), Snapshot(b);
      failed := FixExprList(p.exprList, zDb);
      Progress(all, done, b, rest, m0, mid, Snapshot(all), midB, Snapshot(b), failed, zDb);
      if failed { return; }
      done := done + b;
      p := p.next;
    }
    StepParts(p);
    End(all, done, m0, Snapshot(all), zDb);
    failed := false;
  }
}
