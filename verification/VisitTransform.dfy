/** The two ways of applying a function to transformed arguments. A transformer receives a continuation and
    an argument, and may call the continuation any number of times. Arguments and their transformed values
    share one type, as the C++ templates do not tell them apart either. */
module VisitTransform {

  type Transformer<!V, !R> = (V -> R, V) -> R

  // ----- the rotating recursion

  /** `n` arguments at the front of the argument pack are still to be transformed; the transformed ones are
      at the back. */
  function Rotate<V, R>(n: nat, f: seq<V> -> R, transformer: Transformer<V, R>, pack: seq<V>): R
    requires 1 <= n <= |pack|
  {
    if n == 1 then
      transformer(u => f(pack[1..] + [u]), pack[0])
    else
      transformer(u => Rotate(n - 1, f, transformer, pack[1..] + [u]), pack[0])
  }

  function VisitTransform2<V, R>(f: seq<V> -> R, transformer: Transformer<V, R>, ts: seq<V>): R
    requires ts != []
  {
    Rotate(|ts|, f, transformer, ts)
  }

  // ----- the chain of visitors

  datatype Visitor<!V, !R> = Visitor(t: V, transformer: Transformer<V, R>, function_: Callee<V, R>)

  datatype Callee<!V, !R> = Plain(f: seq<V> -> R) | Nested(visitor: Visitor<V, R>)

  function Call<V, R>(v: Visitor<V, R>, args: seq<V>): R {
    v.transformer(u => Invoke(v.function_, args + [u]), v.t)
  }

  function Invoke<V, R>(c: Callee<V, R>, args: seq<V>): R {
    match c
    case Plain(f) => f(args)
    case Nested(v) => Call(v, args)
  }

  /** The operator `|`: the left visitor's own function is dropped. */
  function Pipe<V, R>(lhs: Visitor<V, R>, rhs: Visitor<V, R>): Visitor<V, R> {
    Visitor(lhs.t, lhs.transformer, Nested(rhs))
  }

  function PipeAll<V, R>(vs: seq<Visitor<V, R>>): Visitor<V, R>
    requires vs != []
  {
    if |vs| == 1 then vs[0] else Pipe(vs[0], PipeAll(vs[1..]))
  }

  function Visitors<V, R>(f: seq<V> -> R, transformer: Transformer<V, R>, ts: seq<V>): (vs: seq<Visitor<V, R>>)
    ensures |vs| == |ts|
  {
    seq(|ts|, i requires 0 <= i < |ts| => Visitor(ts[i], transformer, Plain(f)))
  }

  function VisitTransform<V, R>(f: seq<V> -> R, transformer: Transformer<V, R>, ts: seq<V>): R
    requires ts != []
  {
    Call(PipeAll(Visitors(f, transformer, ts)), [])
  }

  // ----- what both denote

  /** Transform `ts` from left to right, each inside the continuation of the one before,
      and call `f` with `us` followed by all transformed values. */
  function Bind<V, R>(f: seq<V> -> R, transformer: Transformer<V, R>, ts: seq<V>, us: seq<V>): R
    decreases |ts|
  {
    if ts == [] then f(us)
    else transformer(u => Bind(f, transformer, ts[1..], us + [u]), ts[0])
  }

  /** The transformer cannot tell continuations apart that give the same results. */
  ghost predicate Respects<V(!new), R(!new)>(transformer: Transformer<V, R>) {
    forall k1: V -> R, k2: V -> R, t: V ::
      (forall u :: k1(u) == k2(u)) ==> transformer(k1, t) == transformer(k2, t)
  }

  lemma SameResult<V(!new), R(!new)>(transformer: Transformer<V, R>, k1: V -> R, k2: V -> R, t: V)
    requires Respects(transformer) && forall u :: k1(u) == k2(u)
    ensures transformer(k1, t) == transformer(k2, t)
  {
  }

  lemma BindStep<V(!new), R(!new)>(f: seq<V> -> R, transformer: Transformer<V, R>, ts: seq<V>, us: seq<V>, k: V -> R)
    requires Respects(transformer) && ts != []
    requires forall u :: k(u) == Bind(f, transformer, ts[1..], us + [u])
    ensures Bind(f, transformer, ts, us) == transformer(k, ts[0])
  {
    SameResult(transformer, u => Bind(f, transformer, ts[1..], us + [u]), k, ts[0]);
  }

  lemma RotateLast<V(!new), R(!new)>(f: seq<V> -> R, transformer: Transformer<V, R>, pack: seq<V>, k: V -> R)
    requires Respects(transformer) && pack != []
    requires forall u :: k(u) == f(pack[1..] + [u])
    ensures Rotate(1, f, transformer, pack) == transformer(k, pack[0])
  {
    SameResult(transformer, u => f(pack[1..] + [u]), k, pack[0]);
  }

  lemma RotateStep<V(!new), R(!new)>(n: nat, f: seq<V> -> R, transformer: Transformer<V, R>, pack: seq<V>, k: V -> R)
    requires Respects(transformer) && 2 <= n <= |pack|
    requires forall u :: k(u) == Rotate(n - 1, f, transformer, pack[1..] + [u])
    ensures Rotate(n, f, transformer, pack) == transformer(k, pack[0])
  {
    SameResult(transformer, u => Rotate(n - 1, f, transformer, pack[1..] + [u]), k, pack[0]);
  }

  /** The argument pack holds the untransformed arguments `ts` followed by the transformed values `us`. */
  lemma {:induction false} RotateIsBind<V(!new), R(!new)>(f: seq<V> -> R, transformer: Transformer<V, R>,
                                                          ts: seq<V>, us: seq<V>)
    requires Respects(transformer) && ts != []
    ensures Rotate(|ts|, f, transformer, ts + us) == Bind(f, transformer, ts, us)
    decreases |ts|
  {
    hide Rotate, Bind, Respects;
    var pack := ts + us;
    var k := u => Bind(f, transformer, ts[1..], us + [u]);
    BindStep(f, transformer, ts, us, k);
    if |ts| == 1 {
      forall u ensures k(u) == f(pack[1..] + [u]) {
        PackShift(ts, us, u);
        BindDone(f, transformer, us + [u]);
      }
      RotateLast(f, transformer, pack, k);
    } else {
      forall u ensures k(u) == Rotate(|ts| - 1, f, transformer, pack[1..] + [u]) {
        PackShift(ts, us, u);
        RotateIsBind(f, transformer, ts[1..], us + [u]);
      }
      RotateStep(|ts|, f, transformer, pack, k);
    }
  }

  lemma PackShift<V>(ts: seq<V>, us: seq<V>, u: V)
    requires ts != []
    ensures (ts + us)[1..] + [u] == ts[1..] + (us + [u])
    ensures |ts| == 1 ==> ts[1..] == [] && (ts + us)[1..] + [u] == us + [u]
  {
    assert (ts + us)[1..] == ts[1..] + us;
  }

  lemma BindDone<V, R>(f: seq<V> -> R, transformer: Transformer<V, R>, us: seq<V>)
    ensures Bind(f, transformer, [], us) == f(us)
  {
  }

  lemma CallStep<V(!new), R(!new)>(v: Visitor<V, R>, args: seq<V>, k: V -> R)
    requires Respects(v.transformer) && forall u :: k(u) == Invoke(v.function_, args + [u])
    ensures Call(v, args) == v.transformer(k, v.t)
  {
    SameResult(v.transformer, u => Invoke(v.function_, args + [u]), k, v.t);
  }

  lemma {:induction false} ChainIsBind<V(!new), R(!new)>(f: seq<V> -> R, transformer: Transformer<V, R>,
                                                         ts: seq<V>, us: seq<V>)
    requires Respects(transformer) && ts != []
    ensures Call(PipeAll(Visitors(f, transformer, ts)), us) == Bind(f, transformer, ts, us)
    decreases |ts|
  {
    var vs := Visitors(f, transformer, ts);
    var v := PipeAll(vs);
    var k := u => Bind(f, transformer, ts[1..], us + [u]);
    forall u ensures k(u) == Invoke(v.function_, us + [u]) {
      if |ts| > 1 {
        assert vs[1..] == Visitors(f, transformer, ts[1..]);
        ChainIsBind(f, transformer, ts[1..], us + [u]);
      }
    }
    CallStep(v, us, k);
    BindStep(f, transformer, ts, us, k);
  }

  /** The recursion and the chain of visitors give the same result. */
  lemma BothVisitsAgree<V(!new), R(!new)>(f: seq<V> -> R, transformer: Transformer<V, R>, ts: seq<V>)
    requires Respects(transformer) && ts != []
    ensures VisitTransform2(f, transformer, ts) == VisitTransform(f, transformer, ts)
    ensures VisitTransform(f, transformer, ts) == Bind(f, transformer, ts, [])
  {
    assert ts + [] == ts;
    RotateIsBind(f, transformer, ts, []);
    ChainIsBind(f, transformer, ts, []);
  }

  // ----- transformers that call their continuation exactly once

  function Once<V, R>(g: V -> V): Transformer<V, R> {
    (k: V -> R, t: V) => k(g(t))
  }

  function Map<V>(g: V -> V, ts: seq<V>): (us: seq<V>)
    ensures |us| == |ts| && forall i :: 0 <= i < |ts| ==> us[i] == g(ts[i])
  {
    seq(|ts|, i requires 0 <= i < |ts| => g(ts[i]))
  }

  lemma {:induction false} BindOnce<V(!new), R(!new)>(f: seq<V> -> R, g: V -> V, ts: seq<V>, us: seq<V>)
    ensures Bind(f, Once(g), ts, us) == f(us + Map(g, ts))
    decreases |ts|
  {
    if ts == [] {
      assert us + Map(g, ts) == us;
    } else {
      BindOnce(f, g, ts[1..], us + [g(ts[0])]);
      assert us + [g(ts[0])] + Map(g, ts[1..]) == us + Map(g, ts);
    }
  }

  /** All transformed values reach the function, in the original order. */
  lemma VisitOnce<V(!new), R(!new)>(f: seq<V> -> R, g: V -> V, ts: seq<V>)
    requires ts != []
    ensures VisitTransform2(f, Once(g), ts) == f(Map(g, ts))
    ensures VisitTransform(f, Once(g), ts) == f(Map(g, ts))
  {
    BothVisitsAgree(f, Once<V, R>(g), ts);
    BindOnce(f, g, ts, []);
    assert [] + Map(g, ts) == Map(g, ts);
  }

  // ----- transformers that may not call their continuation at all

  /** Gives up with `stop(t)` on an argument that is not `ok`. */
  function Guarded<V, R>(ok: V -> bool, g: V -> V, stop: V -> R): Transformer<V, R> {
    (k: V -> R, t: V) => if ok(t) then k(g(t)) else stop(t)
  }

  lemma {:induction false} BindGuarded<V(!new), R(!new)>(f: seq<V> -> R, ok: V -> bool, g: V -> V, stop: V -> R,
                                                         ts: seq<V>, us: seq<V>, n: nat)
    requires n <= |ts| && (forall i :: 0 <= i < n ==> ok(ts[i])) && (n < |ts| ==> !ok(ts[n]))
    ensures Bind(f, Guarded(ok, g, stop), ts, us) == if n < |ts| then stop(ts[n]) else f(us + Map(g, ts))
    decreases |ts|
  {
    if ts == [] {
      assert us + Map(g, ts) == us;
    } else if n > 0 {
      BindGuarded(f, ok, g, stop, ts[1..], us + [g(ts[0])], n - 1);
      assert us + [g(ts[0])] + Map(g, ts[1..]) == us + Map(g, ts);
    }
  }

  /** The first argument that is not `ok` decides the result, and the function is not called. */
  lemma VisitGuarded<V(!new), R(!new)>(f: seq<V> -> R, ok: V -> bool, g: V -> V, stop: V -> R, ts: seq<V>, n: nat)
    requires ts != []
    requires n <= |ts| && (forall i :: 0 <= i < n ==> ok(ts[i])) && (n < |ts| ==> !ok(ts[n]))
    ensures VisitTransform2(f, Guarded(ok, g, stop), ts) == if n < |ts| then stop(ts[n]) else f(Map(g, ts))
    ensures VisitTransform(f, Guarded(ok, g, stop), ts) == if n < |ts| then stop(ts[n]) else f(Map(g, ts))
  {
    BothVisitsAgree(f, Guarded(ok, g, stop), ts);
    BindGuarded(f, ok, g, stop, ts, [], n);
    assert [] + Map(g, ts) == Map(g, ts);
  }

  // ----- a transformer that calls its continuation once for every choice

  /** An argument before and after its transformation. */
  datatype Value<U> = Choices(options: seq<U>) | Item(item: U)

  function FlatMap<A, B>(xs: seq<A>, f: A -> seq<B>): seq<B> {
    if xs == [] then [] else f(xs[0]) + FlatMap(xs[1..], f)
  }

  /** Runs the continuation on every choice and concatenates the results. An argument that has been
      transformed already yields nothing. */
  function Explore<U, X>(k: Value<U> -> seq<X>, t: Value<U>): seq<X> {
    match t
    case Choices(options) => FlatMap(options, u => k(Item(u)))
    case Item(_) => []
  }

  /** The Cartesian product, the last position varying fastest. */
  function Product<U>(lists: seq<seq<U>>): seq<seq<Value<U>>> {
    if lists == [] then [[]]
    else FlatMap(lists[0], u => Prefixed(Item(u), Product(lists[1..])))
  }

  function Prefixed<A>(a: A, rows: seq<seq<A>>): (r: seq<seq<A>>)
    ensures |r| == |rows| && forall i :: 0 <= i < |rows| ==> r[i] == [a] + rows[i]
  {
    seq(|rows|, i requires 0 <= i < |rows| => [a] + rows[i])
  }

  function AllChoices<U>(lists: seq<seq<U>>): (ts: seq<Value<U>>)
    ensures |ts| == |lists| && forall i :: 0 <= i < |lists| ==> ts[i] == Choices(lists[i])
  {
    seq(|lists|, i requires 0 <= i < |lists| => Choices(lists[i]))
  }

  lemma {:induction false} FlatMapCongruence<A(!new), B>(xs: seq<A>, f: A -> seq<B>, g: A -> seq<B>)
    requires forall x :: f(x) == g(x)
    ensures FlatMap(xs, f) == FlatMap(xs, g)
  {
    if xs != [] {
      FlatMapCongruence(xs[1..], f, g);
    }
  }

  lemma ExploreRespects<U(!new), X(!new)>()
    ensures Respects<Value<U>, seq<X>>(Explore)
  {
    forall k1: Value<U> -> seq<X>, k2: Value<U> -> seq<X>, t: Value<U> | forall u :: k1(u) == k2(u)
      ensures Explore(k1, t) == Explore(k2, t)
    {
      if t.Choices? {
        FlatMapCongruence(t.options, u => k1(Item(u)), u => k2(Item(u)));
      }
    }
  }

  lemma {:induction false} FlatMapAppend<A, B>(xs: seq<A>, ys: seq<A>, f: A -> seq<B>)
    ensures FlatMap(xs + ys, f) == FlatMap(xs, f) + FlatMap(ys, f)
  {
    if xs == [] {
      assert xs + ys == ys;
    } else {
      FlatMapAppend(xs[1..], ys, f);
      assert (xs + ys)[1..] == xs[1..] + ys;
    }
  }

  lemma {:induction false} FlatMapFlatMap<A, B, C>(xs: seq<A>, f: A -> seq<B>, g: B -> seq<C>)
    ensures FlatMap(FlatMap(xs, f), g) == FlatMap(xs, x => FlatMap(f(x), g))
  {
    if xs != [] {
      FlatMapAppend(f(xs[0]), FlatMap(xs[1..], f), g);
      FlatMapFlatMap(xs[1..], f, g);
    }
  }

  lemma {:induction false} FlatMapPrefixed<A(!new), B>(a: A, rows: seq<seq<A>>,
                                                       g: seq<A> -> seq<B>, h: seq<A> -> seq<B>)
    requires forall row :: h(row) == g([a] + row)
    ensures FlatMap(Prefixed(a, rows), g) == FlatMap(rows, h)
  {
    if rows != [] {
      assert Prefixed(a, rows)[1..] == Prefixed(a, rows[1..]);
      FlatMapPrefixed(a, rows[1..], g, h);
    }
  }

  lemma {:induction false} BindExplore<U(!new), X(!new)>(f: seq<Value<U>> -> seq<X>, lists: seq<seq<U>>,
                                                         us: seq<Value<U>>)
    ensures Bind(f, Explore, AllChoices(lists), us) == FlatMap(Product(lists), row => f(us + row))
    decreases |lists|
  {
    var g := row => f(us + row);
    if lists == [] {
      assert us + [] == us;
      assert Product(lists)[1..] == [];
      assert FlatMap(Product(lists), g) == g([]) + [];
    } else {
      var rest := lists[1..];
      var perItem := u => Prefixed(Item(u), Product(rest));
      var k := v => Bind(f, Explore, AllChoices(rest), us + [v]);
      assert AllChoices(lists)[1..] == AllChoices(rest);
      forall u ensures k(Item(u)) == FlatMap(perItem(u), g) {
        BindExplore(f, rest, us + [Item(u)]);
        var h := row => f(us + [Item(u)] + row);
        forall row ensures h(row) == g([Item(u)] + row) {
          assert us + [Item(u)] + row == us + ([Item(u)] + row);
        }
        FlatMapPrefixed(Item(u), Product(rest), g, h);
      }
      FlatMapCongruence(lists[0], u => k(Item(u)), u => FlatMap(perItem(u), g));
      FlatMapFlatMap(lists[0], perItem, g);
      ExploreRespects<U, X>();
      BindStep(f, Explore, AllChoices(lists), us, k);
    }
  }

  /** The function is called once for every row of the Cartesian product, in lexicographic order. */
  lemma VisitExplore<U(!new), X(!new)>(f: seq<Value<U>> -> seq<X>, lists: seq<seq<U>>)
    requires lists != []
    ensures VisitTransform2(f, Explore, AllChoices(lists)) == FlatMap(Product(lists), f)
    ensures VisitTransform(f, Explore, AllChoices(lists)) == FlatMap(Product(lists), f)
  {
    ExploreRespects<U, X>();
    BothVisitsAgree(f, Explore, AllChoices(lists));
    BindExplore(f, lists, []);
    forall row ensures f([] + row) == f(row) { assert [] + row == row; }
    FlatMapCongruence(Product(lists), row => f([] + row), f);
  }

  // ----- the product

  function RowCount<U>(lists: seq<seq<U>>): nat {
    if lists == [] then 1 else |lists[0]| * RowCount(lists[1..])
  }

  lemma {:induction false} FlatMapLength<A(!new), B>(xs: seq<A>, f: A -> seq<B>, m: nat)
    requires forall x :: |f(x)| == m
    ensures |FlatMap(xs, f)| == |xs| * m
  {
    if xs != [] {
      FlatMapLength(xs[1..], f, m);
      assert |xs| * m == m + |xs[1..]| * m;
    }
  }

  function Address(m: nat, b: nat, o: nat): nat {
    b * m + o
  }

  /** A concatenation of blocks of equal length, addressed by block and offset. */
  lemma {:induction false} FlatMapAt<A(!new), B>(xs: seq<A>, f: A -> seq<B>, m: nat, b: nat, o: nat)
    requires (forall x :: |f(x)| == m) && b < |xs| && o < m
    ensures Address(m, b, o) < |FlatMap(xs, f)| && FlatMap(xs, f)[Address(m, b, o)] == f(xs[b])[o]
  {
    if b > 0 {
      FlatMapAt(xs[1..], f, m, b - 1, o);
      assert Address(m, b, o) == m + Address(m, b - 1, o);
    } else {
      assert Address(m, b, o) == o;
    }
  }

  /** The number of rows is the product of the lengths. */
  lemma {:induction false} ProductCount<U(!new)>(lists: seq<seq<U>>)
    ensures |Product(lists)| == RowCount(lists)
    ensures |Product(lists)| == if lists == [] then 1 else |lists[0]| * |Product(lists[1..])|
    decreases |lists|
  {
    if lists != [] {
      ProductCount(lists[1..]);
      FlatMapLength(lists[0], u => Prefixed(Item(u), Product(lists[1..])), RowCount(lists[1..]));
    }
  }

  /** The rows are in lexicographic order of the positions chosen: with `m` rows for the other lists,
      row `b * m + o` picks position `b` of the first list and goes on as row `o` of theirs. */
  lemma ProductOrder<U(!new)>(lists: seq<seq<U>>, b: nat, o: nat)
    requires lists != [] && b < |lists[0]| && o < |Product(lists[1..])|
    ensures var at := Address(|Product(lists[1..])|, b, o);
            && at < |Product(lists)|
            && Product(lists)[at] == [Item(lists[0][b])] + Product(lists[1..])[o]
  {
    hide Address, FlatMap;
    var perItem := u => Prefixed(Item(u), Product(lists[1..]));
    FlatMapAt(lists[0], perItem, |Product(lists[1..])|, b, o);
  }

  lemma {:induction false} FlatMapMember<A, B>(xs: seq<A>, f: A -> seq<B>, y: B)
    ensures y in FlatMap(xs, f) <==> exists i :: 0 <= i < |xs| && y in f(xs[i])
  {
    if xs != [] {
      FlatMapMember(xs[1..], f, y);
      if i :| 0 <= i < |xs| && y in f(xs[i]) {
        assert i > 0 ==> xs[i] == xs[1..][i - 1];
      }
      if y in FlatMap(xs[1..], f) {
        var i :| 0 <= i < |xs[1..]| && y in f(xs[1..][i]);
        assert xs[i + 1] == xs[1..][i];
      }
    }
  }

  ghost predicate IsRow<U>(lists: seq<seq<U>>, row: seq<Value<U>>) {
    |row| == |lists| && forall i :: 0 <= i < |row| ==> row[i].Item? && row[i].item in lists[i]
  }

  lemma IsRowTail<U>(lists: seq<seq<U>>, row: seq<Value<U>>)
    requires lists != [] && row != []
    ensures IsRow(lists, row) <==> IsRow(lists[1..], row[1..]) && row[0].Item? && row[0].item in lists[0]
  {
    assert forall i :: 1 <= i < |row| ==> row[i] == row[1..][i - 1];
    assert forall i :: 1 <= i < |lists| ==> lists[i] == lists[1..][i - 1];
  }

  /** The rows are exactly the ways to choose one item from every list. */
  lemma {:induction false} ProductMember<U(!new)>(lists: seq<seq<U>>, row: seq<Value<U>>)
    ensures row in Product(lists) <==> IsRow(lists, row)
    decreases |lists|
  {
    if lists != [] {
      var rest := lists[1..];
      var perItem := u => Prefixed(Item(u), Product(rest));
      FlatMapMember(lists[0], perItem, row);
      if row != [] {
        ProductMember(rest, row[1..]);
        IsRowTail(lists, row);
        PrefixedMember(lists[0], Product(rest), row);
      }
    }
  }

  lemma PrefixedMember<U>(items: seq<U>, rows: seq<seq<Value<U>>>, row: seq<Value<U>>)
    requires row != []
    ensures (exists b :: 0 <= b < |items| && row in Prefixed(Item(items[b]), rows))
       <==> row[0].Item? && row[0].item in items && row[1..] in rows
  {
    if b :| 0 <= b < |items| && row in Prefixed(Item(items[b]), rows) {
      var o :| 0 <= o < |rows| && Prefixed(Item(items[b]), rows)[o] == row;
      assert row == [Item(items[b])] + rows[o];
    }
    if row[0].Item? && row[0].item in items && row[1..] in rows {
      var b :| 0 <= b < |items| && items[b] == row[0].item;
      var o :| 0 <= o < |rows| && rows[o] == row[1..];
      assert row == [row[0]] + row[1..];
      assert Prefixed(Item(items[b]), rows)[o] == row;
    }
  }
}
