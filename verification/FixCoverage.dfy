/** Which table references of a parse tree the walkers of attach.c reach, and in what order. */
module FixCoverage {
  import opened CText
  import opened FixPass
  import opened Wrappers

  // The tables named anywhere in a tree; `all` says whether those in GROUP BY and ORDER BY clauses
  // count.

  function TablesOfItem(i: SrcItem, all: bool): (s: set<TableRef>)
    decreases i
  {
    TablesOfSelect(i.select, all) + TablesOfExpr(i.on, all) + {i.table}
  }

  function TablesOfItems(xs: seq<SrcItem>, all: bool): (s: set<TableRef>)
    decreases xs
  {
    if xs == [] then {} else TablesOfItems(xs[1..], all) + TablesOfItem(xs[0], all)
  }

  function TablesOfSelect(s: Select, all: bool): (t: set<TableRef>)
    decreases s
  {
    match s
    case NoSelect => {}
    case Select(e, f, w, g, h, o, p) =>
      TablesOfExprs(e.a, all) + TablesOfItems(f.a, all) + TablesOfExpr(w, all) + TablesOfExpr(h, all)
      + TablesOfSelect(p, all) + if all then TablesOfExprs(g.a, all) + TablesOfExprs(o.a, all) else {}
  }

  function TablesOfExpr(e: Expr, all: bool): (s: set<TableRef>)
    decreases e
  {
    match e
    case NoExpr => {}
    case Expr(s, l, left, right) =>
      TablesOfExpr(left, all) + TablesOfExpr(right, all) + TablesOfExprs(l.a, all) + TablesOfSelect(s, all)
  }

  function TablesOfExprs(es: seq<Expr>, all: bool): (s: set<TableRef>)
    decreases es
  {
    if es == [] then {} else TablesOfExprs(es[1..], all) + TablesOfExpr(es[0], all)
  }

  function TablesOfSteps(t: TriggerStep, all: bool): (s: set<TableRef>)
    decreases t
  {
    match t
    case NoStep => {}
    case Step(s, w, l, n) =>
      TablesOfSelect(s, all) + TablesOfExpr(w, all) + TablesOfExprs(l.a, all) + TablesOfSteps(n, all)
  }

  lemma CellsOfBoth(a: Refs, b: Refs)
    ensures Cells(a + b) == Cells(a) + Cells(b)
  {
  }

  lemma NoCells()
    ensures Cells([]) == {}
  {
  }

  lemma OneCell(c: TableRef)
    ensures Cells([c]) == {c}
  {
  }

  lemma {:induction false} ReachedInItem(i: SrcItem)
    ensures Cells(InItem(i)) == TablesOfItem(i, false) <= TablesOfItem(i, true)
    decreases i
  {
    hide Cells;
    ReachedInSelect(i.select);
    ReachedInExpr(i.on);
    OneCell(i.table);
    CellsOfBoth(InSelect(i.select), InExpr(i.on));
    CellsOfBoth([i.table], InSelect(i.select) + InExpr(i.on));
  }

  lemma {:induction false} ReachedInItems(xs: seq<SrcItem>)
    ensures Cells(InItems(xs)) == TablesOfItems(xs, false) <= TablesOfItems(xs, true)
    decreases xs
  {
    hide Cells;
    if xs == [] {
      NoCells();
    } else {
      ReachedInItem(xs[0]);
      ReachedInItems(xs[1..]);
      CellsOfBoth(InItem(xs[0]), InItems(xs[1..]));
    }
  }

  /** Of a select statement the walkers reach exactly the tables outside of GROUP BY and ORDER BY
      clauses, at any depth. */
  lemma {:induction false} ReachedInSelect(s: Select)
    ensures Cells(InSelect(s)) == TablesOfSelect(s, false) <= TablesOfSelect(s, true)
    decreases s
  {
    hide Cells;
    match s
    case NoSelect => NoCells();
    case Select(e, f, w, _, h, _, p) =>
      ReachedInExprs(e.a);
      ReachedInItems(f.a);
      ReachedInExpr(w);
      ReachedInExpr(h);
      ReachedInSelect(p);
      CellsOfBoth(InExpr(h), InSelect(p));
      CellsOfBoth(InExpr(w), InExpr(h) + InSelect(p));
      CellsOfBoth(InItems(f.a), InExpr(w) + (InExpr(h) + InSelect(p)));
      CellsOfBoth(InExprs(e.a), InItems(f.a) + (InExpr(w) + (InExpr(h) + InSelect(p))));
  }

  lemma {:induction false} ReachedInExpr(e: Expr)
    ensures Cells(InExpr(e)) == TablesOfExpr(e, false) <= TablesOfExpr(e, true)
    decreases e
  {
    hide Cells;
    match e
    case NoExpr => NoCells();
    case Expr(s, l, left, right) =>
      ReachedInSelect(s);
      ReachedInExprs(l.a);
      ReachedInExpr(right);
      ReachedInExpr(left);
      CellsOfBoth(InExpr(right), InExpr(left));
      CellsOfBoth(InExprs(l.a), InExpr(right) + InExpr(left));
      CellsOfBoth(InSelect(s), InExprs(l.a) + (InExpr(right) + InExpr(left)));
  }

  lemma {:induction false} ReachedInExprs(es: seq<Expr>)
    ensures Cells(InExprs(es)) == TablesOfExprs(es, false) <= TablesOfExprs(es, true)
    decreases es
  {
    hide Cells;
    if es == [] {
      NoCells();
    } else {
      ReachedInExpr(es[0]);
      ReachedInExprs(es[1..]);
      CellsOfBoth(InExpr(es[0]), InExprs(es[1..]));
    }
  }

  /** Of the steps of a trigger likewise. */
  lemma {:induction false} ReachedInSteps(t: TriggerStep)
    ensures Cells(InSteps(t)) == TablesOfSteps(t, false) <= TablesOfSteps(t, true)
    decreases t
  {
    hide Cells;
    match t
    case NoStep => NoCells();
    case Step(s, w, l, n) =>
      ReachedInSelect(s);
      ReachedInExpr(w);
      ReachedInExprs(l.a);
      ReachedInSteps(n);
      CellsOfBoth(InExprs(l.a), InSteps(n));
      CellsOfBoth(InExpr(w), InExprs(l.a) + InSteps(n));
      CellsOfBoth(InSelect(s), InExpr(w) + (InExprs(l.a) + InSteps(n)));
  }

  // ---- the order of the visits

  /** No reference of the part names another database. */
  predicate Clean(part: Refs, m: Names, zDb: CString)
    requires forall c :: c in part ==> c in m
  {
    forall c :: c in part ==> !Conflicts(m[c], zDb)
  }

  /** All names that are missing in the part have been filled in. */
  predicate Filled(part: Refs, m: Names, now: Names, zDb: CString)
    requires forall c :: c in part ==> c in m && c in now
  {
    forall c :: c in part && m[c].None? ==> now[c] == Some(zDb)
  }

  lemma {:induction false} ConflictBehind(a: Refs, b: Refs, m: Names, zDb: CString)
    requires (forall c :: c in a + b ==> c in m) && forall c :: c in a ==> !Conflicts(m[c], zDb)
    ensures FirstConflict(a + b, m, zDb) >= |a|
  {
    assert forall i :: 0 <= i < |a| ==> (a + b)[i] == a[i];
  }

  /** References without a conflict get their names, whatever comes behind them. */
  lemma CleanIsFilled(a: Refs, b: Refs, m: Names, zDb: CString)
    requires forall c :: c in a + b ==> c in m
    ensures (forall c :: c in a ==> c in a + b) && (Clean(a, m, zDb) ==> Filled(a, m, Fix(a + b, m, zDb).names, zDb))
  {
    hide Fix;
    assert forall c :: c in a ==> c in a + b;
    if Clean(a, m, zDb) {
      ConflictBehind(a, b, m, zDb);
      FixMeaning(a + b, m, zDb);
      var k := FirstConflict(a + b, m, zDb);
      forall c | c in a ensures c in (a + b)[..k] {
        var i :| 0 <= i < |a| && a[i] == c;
        assert (a + b)[..k][i] == c;
      }
    }
  }

  lemma PartFilled(all: Refs, before: Refs, part: Refs, behind: Refs, m: Names, zDb: CString)
    requires all == before + part + behind && forall c :: c in all ==> c in m
    ensures forall c :: c in before + part ==> c in m
    ensures Clean(before + part, m, zDb) ==> Filled(part, m, Fix(all, m, zDb).names, zDb)
  {
    hide Fix;
    assert forall c :: c in before + part ==> c in all;
    CleanIsFilled(before + part, behind, m, zDb);
    assert forall c :: c in part ==> c in before + part;
  }

  /** In an expression a conflict stops only what comes behind it: the select statement, the list,
      the right operand and the left operand come in this order. */
  lemma ExprOrder(e: Expr, m: Names, zDb: CString)
    requires e.Expr? && forall c :: c in InExpr(e) ==> c in m
    ensures var a, b, c := InSelect(e.select), InExprs(e.list.a), InExpr(e.right);
            var now := Fix(InExpr(e), m, zDb).names;
            && (forall t :: t in a + b + c ==> t in m)
            && (Clean(a, m, zDb) ==> Filled(a, m, now, zDb))
            && (Clean(a + b, m, zDb) ==> Filled(b, m, now, zDb))
            && (Clean(a + b + c, m, zDb) ==> Filled(c, m, now, zDb))
  {
    hide Fix, InSelect, InExprs, InExpr, Clean, Filled;
    ExprParts(e);
    var a, b, c, d := InSelect(e.select), InExprs(e.list.a), InExpr(e.right), InExpr(e.left);
    assert InExpr(e) == [] + a + (b + (c + d)) == a + b + (c + d) == (a + b) + c + d;
    assert [] + a == a;
    PartFilled(InExpr(e), [], a, b + (c + d), m, zDb);
    PartFilled(InExpr(e), a, b, c + d, m, zDb);
    PartFilled(InExpr(e), a + b, c, d, m, zDb);
  }

  /** In a select statement the columns, the FROM clause, WHERE, HAVING and the prior statements come
      in this order. */
  lemma SelectOrder(s: Select, m: Names, zDb: CString)
    requires s.Select? && forall c :: c in InSelect(s) ==> c in m
    ensures var a, b, c, d := InExprs(s.eList.a), InItems(s.src.a), InExpr(s.where), InExpr(s.having);
            var now := Fix(InSelect(s), m, zDb).names;
            && (forall t :: t in a + b + c + d ==> t in m)
            && (Clean(a, m, zDb) ==> Filled(a, m, now, zDb))
            && (Clean(a + b, m, zDb) ==> Filled(b, m, now, zDb))
            && (Clean(a + b + c, m, zDb) ==> Filled(c, m, now, zDb))
            && (Clean(a + b + c + d, m, zDb) ==> Filled(d, m, now, zDb))
  {
    hide Fix, InSelect, InExprs, InExpr, InItems, Clean, Filled;
    SelectParts(s);
    var a, b, c, d, e := InExprs(s.eList.a), InItems(s.src.a), InExpr(s.where), InExpr(s.having), InSelect(s.prior);
    assert InSelect(s) == [] + a + (b + (c + (d + e))) == a + b + (c + (d + e)) == (a + b) + c + (d + e)
        == (a + b + c) + d + e;
    assert [] + a == a;
    PartFilled(InSelect(s), [], a, b + (c + (d + e)), m, zDb);
    PartFilled(InSelect(s), a, b, c + (d + e), m, zDb);
    PartFilled(InSelect(s), a + b, c, d + e, m, zDb);
    PartFilled(InSelect(s), a + b + c, d, e, m, zDb);
  }

  /** In a FROM-clause item its own name, the subquery and the ON clause. */
  lemma ItemOrder(i: SrcItem, m: Names, zDb: CString)
    requires forall c :: c in InItem(i) ==> c in m
    ensures var a, b, c := [i.table], InSelect(i.select), InExpr(i.on);
            var now := Fix(InItem(i), m, zDb).names;
            && (forall t :: t in a + b + c ==> t in m)
            && (Clean(a, m, zDb) ==> Filled(a, m, now, zDb))
            && (Clean(a + b, m, zDb) ==> Filled(b, m, now, zDb))
            && (Clean(a + b + c, m, zDb) ==> Filled(c, m, now, zDb))
  {
    hide Fix, InSelect, InExpr, Clean, Filled;
    var a, b, c := [i.table], InSelect(i.select), InExpr(i.on);
    assert InItem(i) == [] + a + (b + c) == a + b + c == (a + b) + c + [];
    assert [] + a == a;
    PartFilled(InItem(i), [], a, b + c, m, zDb);
    PartFilled(InItem(i), a, b, c, m, zDb);
    PartFilled(InItem(i), a + b, c, [], m, zDb);
  }

  /** In a trigger step the select statement, the WHERE clause, the list and the next steps. */
  lemma StepOrder(s: TriggerStep, m: Names, zDb: CString)
    requires s.Step? && forall c :: c in InSteps(s) ==> c in m
    ensures var a, b, c := InSelect(s.select), InExpr(s.where), InExprs(s.exprList.a);
            var now := Fix(InSteps(s), m, zDb).names;
            && (forall t :: t in a + b + c ==> t in m)
            && (Clean(a, m, zDb) ==> Filled(a, m, now, zDb))
            && (Clean(a + b, m, zDb) ==> Filled(b, m, now, zDb))
            && (Clean(a + b + c, m, zDb) ==> Filled(c, m, now, zDb))
  {
    hide Fix, InSelect, InExprs, InExpr, InSteps, Clean, Filled;
    StepParts(s);
    var a, b, c, d := InSelect(s.select), InExpr(s.where), InExprs(s.exprList.a), InSteps(s.next);
    assert InSteps(s) == [] + a + (b + (c + d)) == a + b + (c + d) == (a + b) + c + d;
    assert [] + a == a;
    PartFilled(InSteps(s), [], a, b + (c + d), m, zDb);
    PartFilled(InSteps(s), a, b, c + d, m, zDb);
    PartFilled(InSteps(s), a + b, c, d, m, zDb);
  }
}
