/** Whole runs of a context, compared with runs of the eager one. */
module ContextRuns {
  import opened Sequences
  import opened ScopeChains
  import opened EagerContext
  import opened ContextEngine

  /** Objects have names in the eager context and cells in the engine; with names replaced by
      cells, the values are the same. */
  ghost predicate SameValues<T>(names: map<nat, T>, cells: map<Cell, T>, cell: map<nat, Cell>) {
    names.Keys == cell.Keys && forall n :: n in cell ==> cell[n] in cells && cells[cell[n]] == names[n]
  }

  ghost predicate Follows<T>(view: Eager<T>, e: Eager<T>, cell: map<nat, Cell>) {
    && (forall m, n :: m in cell && n in cell && m != n ==> cell[m] != cell[n])
    && SameValues(e.cur, view.cur, cell)
    && |e.snaps| == |view.snaps|
    && (forall l {:trigger e.snaps[l]} :: 0 <= l < |e.snaps| ==> SameValues(e.snaps[l], view.snaps[l], cell))
  }

  lemma SetFollows<T>(view: Eager<T>, e: Eager<T>, cell: map<nat, Cell>, n: nat, v: T)
    requires Follows(view, e, cell) && n in cell
    ensures Follows(SetOne(view, cell[n], v), SetOne(e, n, v), cell)
  {
  }

  lemma DestroyFollows<T>(view: Eager<T>, e: Eager<T>, cell: map<nat, Cell>, n: nat)
    requires Follows(view, e, cell) && n in cell
    ensures Follows(Without(view, {cell[n]}), Without(e, {n}), cell - {n})
  {
  }

  lemma NewFollows<T>(view: Eager<T>, e: Eager<T>, cell: map<nat, Cell>, n: nat, c: Cell, v: T)
    requires Follows(view, e, cell) && n !in cell && forall m :: m in cell ==> cell[m] != c
    ensures Follows(NewOne(view, c, v), NewOne(e, n, v), cell[n := c])
  {
  }

  lemma NewReplaces<T>(e: Eager<T>, n: nat, v: T)
    ensures NewOne(Without(e, {n}), n, v) == NewOne(e, n, v)
  {
    forall m: map<nat, T>
      ensures (m - {n})[n := v] == m[n := v]
    {
    }
  }

  lemma UnknownStays<T>(e: Eager<T>, n: nat)
    requires n !in e.cur && forall l :: 0 <= l < |e.snaps| ==> n !in e.snaps[l]
    ensures Without(e, {n}) == e
  {
    assert e.cur - {n} == e.cur;
    assert forall l :: 0 <= l < |e.snaps| ==> e.snaps[l] - {n} == e.snaps[l];
  }

  /** One operation of the engine follows the same operation of the eager context. */
  method Perform<T(!new)>(ctx: Context<T>, op: Op<T>, cell: map<nat, Cell>, ghost e: Eager<T>) returns (cell': map<nat, Cell>)
    requires ctx.Valid() && Follows(ctx.view, e, cell)
    modifies ctx, ctx.chains
    ensures ctx.Valid() && Follows(ctx.view, Step(e, op), cell')
  {
    cell' := cell;
    match op
    case Push => ctx.Push();
    case Pop => PopIfOpen(ctx, cell, e);
    case New(n, v) =>
      if n in cell {
        cell' := DestroyNamed(ctx, n, cell, e);
        NewReplaces(e, n, v);
        cell' := CreateNamed(ctx, n, v, cell', Without(e, {n}));
      } else {
        cell' := CreateNamed(ctx, n, v, cell, e);
      }
    case Set(n, v) =>
      if n in cell {
        SetFollows(ctx.view, e, cell, n, v);
        ctx.Set(cell[n], v);
      }
    case Destroy(n) =>
      if n in cell {
        cell' := DestroyNamed(ctx, n, cell, e);
      } else {
        UnknownStays(e, n);
      }
  }

  method PopIfOpen<T(!new)>(ctx: Context<T>, ghost cell: map<nat, Cell>, ghost e: Eager<T>)
    requires ctx.Valid() && Follows(ctx.view, e, cell)
    modifies ctx, ctx.chains
    ensures ctx.Valid() && Follows(ctx.view, if e.snaps == [] then e else PopAll(e), cell)
  {
    if |ctx.chains.heads| > 1 {
      ghost var was := ctx.view;
      ghost var restored, dead := ctx.Pop(map[]);
      assert dead == {};
      WithoutNone(PopAll(was));
    }
  }

  method DestroyNamed<T(!new)>(ctx: Context<T>, n: nat, cell: map<nat, Cell>, ghost e: Eager<T>) returns (cell': map<nat, Cell>)
    requires ctx.Valid() && Follows(ctx.view, e, cell) && n in cell
    modifies ctx, ctx.chains
    ensures ctx.Valid() && Follows(ctx.view, Without(e, {n}), cell') && cell' == cell - {n}
  {
    DestroyFollows(ctx.view, e, cell, n);
    ctx.Destroy(cell[n]);
    cell' := cell - {n};
  }

  method CreateNamed<T(!new)>(ctx: Context<T>, n: nat, v: T, cell: map<nat, Cell>, ghost e: Eager<T>) returns (cell': map<nat, Cell>)
    requires ctx.Valid() && Follows(ctx.view, e, cell) && n !in cell
    modifies ctx, ctx.chains
    ensures ctx.Valid() && Follows(ctx.view, NewOne(e, n, v), cell')
  {
    ghost var was := ctx.view;
    var c := ctx.NewObject(v);
    NewFollows(was, e, cell, n, c, v);
    cell' := cell[n := c];
  }

  /** Over every run the lazy engine gives each object the value it has when every push copies
      all objects and every pop puts the copies back. */
  method Play<T(!new)>(ops: seq<Op<T>>) returns (values: map<nat, T>)
    ensures values == Run(Eager(map[], []), ops).cur
  {
    var ctx := new Context<T>();
    var cell: map<nat, Cell> := map[];
    ghost var start: Eager<T> := Eager(map[], []);
    ghost var e := start;
    assert ops[0..] == ops;
    for k := 0 to |ops|
      invariant fresh(ctx) && fresh(ctx.chains) && ctx.Valid()
      invariant Follows(ctx.view, e, cell) && Run(e, ops[k..]) == Run(start, ops)
    {
      assert ops[k..][0] == ops[k] && ops[k..][1..] == ops[k + 1..];
      cell := Perform(ctx, ops[k], cell, e);
      e := Step(e, ops[k]);
    }
    assert ops[|ops|..] == [];
    values := map n | n in cell :: ctx.vers[cell[n]].data;
  }
}
