/** Building a table row by row, as the scripts do with `rows.append(...)` inside loops
    that an exception may leave early: the rows of a list of results, or the first error. */
module Frames {
  import opened Wrappers
  import opened Ordering

  /** The rows of `a`, then those of `b`; the first error stops the table. */
  function Then<T>(a: Result<seq<T>>, b: Result<seq<T>>): (r: Result<seq<T>>)
    ensures a.Err? ==> r == a
    ensures a.Ok? && b.Err? ==> r == b
    ensures a.Ok? && b.Ok? ==> r == Ok(a.value + b.value)
  {
    if a.Err? then a else if b.Err? then b else Ok(a.value + b.value)
  }

  function AsRows<T>(r: Result<T>): Result<seq<T>>
  {
    match r
    case Ok(x) => Ok([x])
    case Err(e) => Err(e)
  }

  /** The values of the results, in order, or the first error among them. */
  function Collect<T>(rs: seq<Result<T>>): Result<seq<T>>
  {
    if rs == [] then Ok([]) else Then(Collect(rs[..|rs| - 1]), AsRows(rs[|rs| - 1]))
  }

  /** A collected table holds exactly the values, one per result. */
  lemma {:induction false} CollectOk<T>(rs: seq<Result<T>>)
    requires Collect(rs).Ok?
    ensures |Collect(rs).value| == |rs|
    ensures forall i :: 0 <= i < |rs| ==> rs[i] == Ok(Collect(rs).value[i])
  {
    if rs != [] {
      var init := rs[..|rs| - 1];
      CollectOk(init);
      assert forall i :: 0 <= i < |init| ==> rs[i] == init[i];
    }
  }

  /** A table fails exactly when some result fails, with the first error. */
  lemma {:induction false} CollectErr<T>(rs: seq<Result<T>>, k: int)
    requires 0 <= k < |rs| && rs[k].Err? && forall i :: 0 <= i < k ==> rs[i].Ok?
    ensures Collect(rs) == Err(rs[k].error)
  {
    if k < |rs| - 1 {
      var init := rs[..|rs| - 1];
      CollectErr(init, k);
    } else {
      CollectAllOk(rs[..k]);
    }
  }

  /** A failed table fails with the error of one of its results. */
  lemma {:induction false} CollectErrFirst<T>(rs: seq<Result<T>>)
    requires Collect(rs).Err?
    ensures exists k :: 0 <= k < |rs| && rs[k].Err? && Collect(rs) == Err(rs[k].error)
  {
    var init := rs[..|rs| - 1];
    if Collect(init).Err? {
      CollectErrFirst(init);
      var k :| 0 <= k < |init| && init[k].Err? && Collect(init) == Err(init[k].error);
      assert rs[k] == init[k];
    } else {
      assert rs[|rs| - 1].Err?;
    }
  }

  lemma {:induction false} CollectAllOk<T>(rs: seq<Result<T>>)
    requires forall i :: 0 <= i < |rs| ==> rs[i].Ok?
    ensures Collect(rs).Ok?
  {
    if rs != [] {
      CollectAllOk(rs[..|rs| - 1]);
    }
  }

  lemma {:induction false} CollectAppend<T>(a: seq<Result<T>>, b: seq<Result<T>>)
    ensures Collect(a + b) == Then(Collect(a), Collect(b))
  {
    if b == [] {
      assert a + b == a;
      if Collect(a).Ok? {
        assert Collect(a).value + [] == Collect(a).value;
      }
    } else {
      var b0, z := b[..|b| - 1], b[|b| - 1];
      assert (a + b)[..|a + b| - 1] == a + b0;
      assert (a + b)[|a + b| - 1] == z;
      CollectAppend(a, b0);
      ThenAssoc(Collect(a), Collect(b0), AsRows(z));
    }
  }

  lemma ThenAssoc<T>(x: Result<seq<T>>, y: Result<seq<T>>, z: Result<seq<T>>)
    ensures Then(Then(x, y), z) == Then(x, Then(y, z))
  {
    if x.Ok? && y.Ok? && z.Ok? {
      assert (x.value + y.value) + z.value == x.value + (y.value + z.value);
    }
  }

  /** The rows that `keep` selects, in order: a boolean mask over a frame. */
  function Where<T>(pts: seq<T>, keep: T -> bool): (r: seq<T>)
    ensures forall i :: 0 <= i < |r| ==> keep(r[i]) && r[i] in pts
    ensures forall i :: 0 <= i < |pts| && keep(pts[i]) ==> pts[i] in r
  {
    if pts == [] then []
    else
      var rest := Where(pts[1..], keep);
      assert forall i :: 1 <= i < |pts| ==> pts[i] == pts[1..][i - 1];
      (if keep(pts[0]) then [pts[0]] else []) + rest
  }

  /** Selecting from two frames one after the other selects from each in turn. */
  lemma {:induction false} WhereAppend<T>(a: seq<T>, b: seq<T>, keep: T -> bool)
    ensures Where(a + b, keep) == Where(a, keep) + Where(b, keep)
  {
    if a == [] {
      assert a + b == b;
    } else {
      assert (a + b)[1..] == a[1..] + b;
      WhereAppend(a[1..], b, keep);
    }
  }

  /** `f` applied to every element. */
  function Map<K, R>(f: K -> R, ks: seq<K>): (rs: seq<R>)
    ensures |rs| == |ks|
    ensures forall i :: 0 <= i < |ks| ==> rs[i] == f(ks[i])
  {
    if ks == [] then [] else Map(f, ks[..|ks| - 1]) + [f(ks[|ks| - 1])]
  }

  lemma MapAppend<K, R>(f: K -> R, a: seq<K>, b: seq<K>)
    ensures Map(f, a + b) == Map(f, a) + Map(f, b)
  {
    assert forall i :: 0 <= i < |a + b| ==> Map(f, a + b)[i] == (Map(f, a) + Map(f, b))[i];
  }

  /** The groups one after the other. */
  function Flatten<K>(gs: seq<seq<K>>): seq<K>
  {
    if gs == [] then [] else Flatten(gs[..|gs| - 1]) + gs[|gs| - 1]
  }

  /** Each element of the flattened list sits in some group. */
  lemma {:induction false} FlattenFrom<K>(gs: seq<seq<K>>)
    ensures forall a :: 0 <= a < |Flatten(gs)| ==> exists i :: 0 <= i < |gs| && Flatten(gs)[a] in gs[i]
  {
    if gs == [] {
      assert Flatten(gs) == [];
    } else {
      var init := gs[..|gs| - 1];
      FlattenFrom(init);
      var f, last := Flatten(gs), gs[|gs| - 1];
      assert f == Flatten(init) + last;
      forall a | 0 <= a < |f| ensures exists i :: 0 <= i < |gs| && f[a] in gs[i] {
        if a < |Flatten(init)| {
          var i :| 0 <= i < |init| && Flatten(init)[a] in init[i];
          assert f[a] == Flatten(init)[a] && gs[i] == init[i];
          assert f[a] in gs[i];
        } else {
          assert f[a] == last[a - |Flatten(init)|];
          assert f[a] in gs[|gs| - 1];
        }
      }
    }
  }

  /** Each element of a group is in the flattened list. */
  lemma {:induction false} FlattenHas<K>(gs: seq<seq<K>>)
    ensures forall i, j :: 0 <= i < |gs| && 0 <= j < |gs[i]| ==> gs[i][j] in Flatten(gs)
  {
    if gs != [] {
      var init := gs[..|gs| - 1];
      FlattenHas(init);
      var f := Flatten(gs);
      assert f == Flatten(init) + gs[|gs| - 1];
      forall i, j | 0 <= i < |gs| && 0 <= j < |gs[i]| ensures gs[i][j] in f {
        if i < |init| {
          assert gs[i][j] == init[i][j];
        } else {
          assert f[|Flatten(init)| + j] == gs[i][j];
        }
      }
    }
  }

  lemma {:induction false} FlattenAppend<K>(a: seq<seq<K>>, b: seq<seq<K>>)
    ensures Flatten(a + b) == Flatten(a) + Flatten(b)
  {
    if b != [] {
      var b0 := b[..|b| - 1];
      assert (a + b)[..|a + b| - 1] == a + b0;
      assert (a + b)[|a + b| - 1] == b[|b| - 1];
      FlattenAppend(a, b0);
    } else {
      assert a + b == a;
    }
  }

  // ---- a table built in a loop ----

  /** One more key: its row is appended, or its error ends the table. */
  lemma CollectMapSnoc<K, R>(f: K -> Result<R>, ks: seq<K>, i: int)
    requires 0 <= i < |ks|
    ensures Collect(Map(f, ks[..i + 1])) == Then(Collect(Map(f, ks[..i])), AsRows(f(ks[i])))
  {
    assert ks[..i + 1][..i] == ks[..i];
  }

  /** The first key whose row fails decides the error of the whole table. */
  lemma CollectMapStop<K, R>(f: K -> Result<R>, ks: seq<K>, i: int)
    requires 0 <= i < |ks| && Collect(Map(f, ks[..i])).Ok? && f(ks[i]).Err?
    ensures Collect(Map(f, ks)) == Err(f(ks[i]).error)
  {
    var rs, init := Map(f, ks), Map(f, ks[..i]);
    CollectOk(init);
    forall j | 0 <= j < i ensures rs[j].Ok? {
      assert ks[..i][j] == ks[j];
      assert rs[j] == init[j];
    }
    CollectErr(rs, i);
  }

  /** One more group: its rows are appended, or its error ends the table. */
  lemma CollectFlattenSnoc<K, R>(f: K -> Result<R>, gs: seq<seq<K>>, i: int)
    requires 0 <= i < |gs|
    ensures Collect(Map(f, Flatten(gs[..i + 1]))) == Then(Collect(Map(f, Flatten(gs[..i]))), Collect(Map(f, gs[i])))
  {
    assert gs[..i + 1][..i] == gs[..i];
    assert Flatten(gs[..i + 1]) == Flatten(gs[..i]) + gs[i];
    MapAppend(f, Flatten(gs[..i]), gs[i]);
    CollectAppend(Map(f, Flatten(gs[..i])), Map(f, gs[i]));
  }

  /** Collecting the rows of all groups is collecting those of the first `i` groups, then
      those of the rest. */
  lemma CollectFlattenSplit<K, R>(f: K -> Result<R>, gs: seq<seq<K>>, i: int)
    requires 0 <= i <= |gs|
    ensures Collect(Map(f, Flatten(gs))) ==
            Then(Collect(Map(f, Flatten(gs[..i]))), Collect(Map(f, Flatten(gs[i..]))))
  {
    assert Flatten(gs) == Flatten(gs[..i]) + Flatten(gs[i..]) by {
      assert gs == gs[..i] + gs[i..];
      FlattenAppend(gs[..i], gs[i..]);
    }
    CollectMapAppend(f, Flatten(gs[..i]), Flatten(gs[i..]));
  }

  lemma CollectMapAppend<K, R>(f: K -> Result<R>, a: seq<K>, b: seq<K>)
    ensures Collect(Map(f, a + b)) == Then(Collect(Map(f, a)), Collect(Map(f, b)))
  {
    MapAppend(f, a, b);
    CollectAppend(Map(f, a), Map(f, b));
  }

  /** A table whose first groups already fail fails with their error. */
  lemma CollectFlattenStop<K, R>(f: K -> Result<R>, gs: seq<seq<K>>, i: int)
    requires 0 <= i <= |gs| && Collect(Map(f, Flatten(gs[..i]))).Err?
    ensures Collect(Map(f, Flatten(gs))) == Collect(Map(f, Flatten(gs[..i])))
  {
    CollectFlattenSplit(f, gs, i);
  }

  /** One step of a loop over keys that appends each row and stops at the first error. */
  lemma CollectMapStep<K, R>(f: K -> Result<R>, ks: seq<K>, i: int, rows: seq<R>)
    requires 0 <= i < |ks| && Collect(Map(f, ks[..i])) == Ok(rows)
    ensures f(ks[i]).Err? ==> Collect(Map(f, ks)) == Err(f(ks[i]).error)
    ensures f(ks[i]).Ok? ==> Collect(Map(f, ks[..i + 1])) == Ok(rows + [f(ks[i]).value])
  {
    CollectMapSnoc(f, ks, i);
    if f(ks[i]).Err? {
      CollectMapStop(f, ks, i);
    }
  }

  /** One step of a loop over groups that appends each group's rows and stops at the first
      error. */
  lemma CollectGroupStep<K, R>(f: K -> Result<R>, gs: seq<seq<K>>, i: int, rows: seq<R>)
    requires 0 <= i < |gs| && Collect(Map(f, Flatten(gs[..i]))) == Ok(rows)
    ensures Collect(Map(f, gs[i])).Err? ==> Collect(Map(f, Flatten(gs))) == Collect(Map(f, gs[i]))
    ensures Collect(Map(f, gs[i])).Ok? ==> Collect(Map(f, Flatten(gs[..i + 1]))) == Ok(rows + Collect(Map(f, gs[i])).value)
  {
    CollectFlattenSnoc(f, gs, i);
    if Collect(Map(f, gs[i])).Err? {
      CollectFlattenStop(f, gs, i + 1);
    }
  }

  lemma WholePrefix<K>(s: seq<K>)
    ensures s[..|s|] == s
  {
  }

  /** A loop that computes the row of each key in turn, appends it, and stops at the first
      key whose row fails. */
  method RowsOf<K, R>(f: K -> Result<R>, keys: seq<K>) returns (r: Result<seq<R>>)
    ensures r == Collect(Map(f, keys))
  {
    var rows: seq<R> := [];
    for i := 0 to |keys|
      invariant Collect(Map(f, keys[..i])) == Ok(rows)
    {
      var row := f(keys[i]);
      CollectMapStep(f, keys, i, rows);
      if row.Err? {
        return Err(row.error);
      }
      rows := rows + [row.value];
    }
    WholePrefix(keys);
    return Ok(rows);
  }

  /** Two nested loops: over the groups, and within a group over its keys, appending the
      rows and stopping at the first failure. */
  method GroupRowsOf<K, R>(f: K -> Result<R>, gs: seq<seq<K>>) returns (r: Result<seq<R>>)
    ensures r == Collect(Map(f, Flatten(gs)))
  {
    var rows: seq<R> := [];
    for i := 0 to |gs|
      invariant Collect(Map(f, Flatten(gs[..i]))) == Ok(rows)
    {
      var t := RowsOf(f, gs[i]);
      CollectGroupStep(f, gs, i, rows);
      if t.Err? {
        return t;
      }
      rows := rows + t.value;
    }
    WholePrefix(gs);
    return Ok(rows);
  }

  // ---- two tables from one loop ----

  /** The first parts of the entries. */
  function Firsts<S, F>(es: seq<(S, seq<F>)>): (ss: seq<S>)
    ensures |ss| == |es|
    ensures forall i :: 0 <= i < |es| ==> ss[i] == es[i].0
  {
    if es == [] then [] else Firsts(es[..|es| - 1]) + [es[|es| - 1].0]
  }

  /** The second parts of the entries, one after the other. */
  function Joined<S, F>(es: seq<(S, seq<F>)>): seq<F>
  {
    if es == [] then [] else Joined(es[..|es| - 1]) + es[|es| - 1].1
  }

  /** A gathered row of the second table comes from some entry, and every row of every
      entry is in it. */
  lemma {:induction false} JoinedMembers<S, F>(es: seq<(S, seq<F>)>)
    ensures forall a :: 0 <= a < |Joined(es)| ==> exists i :: 0 <= i < |es| && Joined(es)[a] in es[i].1
    ensures forall i, j :: 0 <= i < |es| && 0 <= j < |es[i].1| ==> es[i].1[j] in Joined(es)
  {
    if es != [] {
      var init := es[..|es| - 1];
      JoinedMembers(init);
      var f, last := Joined(es), es[|es| - 1].1;
      assert f == Joined(init) + last;
      forall a | 0 <= a < |f| ensures exists i :: 0 <= i < |es| && f[a] in es[i].1 {
        if a < |Joined(init)| {
          var i :| 0 <= i < |init| && Joined(init)[a] in init[i].1;
          assert f[a] == Joined(init)[a] && es[i] == init[i];
        } else {
          assert f[a] == last[a - |Joined(init)|];
        }
      }
      forall i, j | 0 <= i < |es| && 0 <= j < |es[i].1| ensures es[i].1[j] in f {
        if i < |init| {
          assert es[i].1[j] == init[i].1[j];
        } else {
          assert f[|Joined(init)| + j] == es[i].1[j];
        }
      }
    } else {
      assert Joined(es) == [];
    }
  }

  /** The two columns of a list of pairs. */
  function Unzip<A, B>(ps: seq<(A, B)>): (r: (seq<A>, seq<B>))
    ensures |r.0| == |ps| && |r.1| == |ps|
    ensures forall i :: 0 <= i < |ps| ==> r.0[i] == ps[i].0 && r.1[i] == ps[i].1
  {
    (seq(|ps|, i requires 0 <= i < |ps| => ps[i].0), seq(|ps|, i requires 0 <= i < |ps| => ps[i].1))
  }

  /** One more pair: each column gains its part. */
  lemma UnzipSnoc<A, B>(ps: seq<(A, B)>, a: A, b: B)
    ensures Unzip(ps + [(a, b)]) == (Unzip(ps).0 + [a], Unzip(ps).1 + [b])
  {
    var q := ps + [(a, b)];
    assert Unzip(q).0 == Unzip(ps).0 + [a] by {
      assert forall i :: 0 <= i < |q| ==> Unzip(q).0[i] == (Unzip(ps).0 + [a])[i];
    }
    assert Unzip(q).1 == Unzip(ps).1 + [b] by {
      assert forall i :: 0 <= i < |q| ==> Unzip(q).1[i] == (Unzip(ps).1 + [b])[i];
    }
  }

  /** Groups of at most one pair each, whose pairs differ in their first part from group
      to group, flatten to pairs whose first parts all differ. */
  lemma {:induction false} FlattenDistinct<A, B>(gs: seq<seq<(A, B)>>)
    requires forall k :: 0 <= k < |gs| ==> |gs[k]| <= 1
    requires forall k, j :: 0 <= k < j < |gs| && |gs[k]| == 1 && |gs[j]| == 1 ==> gs[k][0].0 != gs[j][0].0
    ensures forall a, b :: 0 <= a < b < |Flatten(gs)| ==> Flatten(gs)[a].0 != Flatten(gs)[b].0
  {
    if gs == [] {
      assert Flatten(gs) == [];
    } else {
      var init, last := gs[..|gs| - 1], gs[|gs| - 1];
      FlattenDistinct(init);
      FlattenFrom(init);
      var f := Flatten(gs);
      assert f == Flatten(init) + last;
      forall a, b | 0 <= a < b < |f| ensures f[a].0 != f[b].0 {
        if b >= |Flatten(init)| {
          assert b == |Flatten(init)| && f[b] == last[0];
          var k :| 0 <= k < |init| && Flatten(init)[a] in init[k];
          assert init[k] == gs[k] && f[a] == gs[k][0];
        } else {
          assert f[a] == Flatten(init)[a] && f[b] == Flatten(init)[b];
        }
      }
    }
  }

  /** A table over the distinct values of a column fails exactly when the row of some value
      of the column fails, and then with the error of such a row. */
  lemma CollectOverColumn<K, R>(f: K -> Result<R>, keys: seq<K>, col: seq<K>)
    requires forall i :: 0 <= i < |col| ==> col[i] in keys
    requires forall k :: 0 <= k < |keys| ==> keys[k] in col
    ensures Collect(Map(f, keys)).Err? <==> exists i :: 0 <= i < |col| && f(col[i]).Err?
    ensures Collect(Map(f, keys)).Err? ==>
      exists i :: 0 <= i < |col| && f(col[i]).Err? && Collect(Map(f, keys)) == Err(f(col[i]).error)
  {
    var rs := Map(f, keys);
    if exists i :: 0 <= i < |col| && f(col[i]).Err? {
      var i :| 0 <= i < |col| && f(col[i]).Err?;
      var k :| 0 <= k < |keys| && keys[k] == col[i];
      assert rs[k].Err?;
      if Collect(rs).Ok? {
        CollectOk(rs);
      }
    }
    if Collect(rs).Err? {
      CollectErrFirst(rs);
      var k :| 0 <= k < |rs| && rs[k].Err? && Collect(rs) == Err(rs[k].error);
      var i :| 0 <= i < |col| && col[i] == keys[k];
      assert f(col[i]).Err? && Collect(rs) == Err(f(col[i]).error);
    }
  }

  /** One more group of a flattened list. */
  lemma FlattenSnoc<K>(gs: seq<seq<K>>, g: seq<K>)
    ensures Flatten(gs + [g]) == Flatten(gs) + g
  {
    assert (gs + [g])[..|gs|] == gs;
  }

  /** Extending the keys by one extends the flattened rows by that key's rows. */
  lemma FlattenStep<K, R>(f: K -> seq<R>, ks: seq<K>, i: int)
    requires 0 <= i < |ks|
    ensures Flatten(Map(f, ks[..i + 1])) == Flatten(Map(f, ks[..i])) + f(ks[i])
  {
    assert ks[..i + 1] == ks[..i] + [ks[i]];
    MapAppend(f, ks[..i], [ks[i]]);
    FlattenSnoc(Map(f, ks[..i]), f(ks[i]));
  }

  /** What a loop builds that, for each key, appends one row to a first table and some rows
      to a second, stopping at the first key that fails. */
  function Gather<K, S, F>(entry: K -> Result<(S, seq<F>)>, ks: seq<K>): Result<(seq<S>, seq<F>)>
  {
    match Collect(Map(entry, ks))
    case Err(e) => Err(e)
    case Ok(es) => Ok((Firsts(es), Joined(es)))
  }

  /** One step of such a loop. */
  lemma GatherStep<K, S, F>(entry: K -> Result<(S, seq<F>)>, ks: seq<K>, i: int, es: seq<(S, seq<F>)>)
    requires 0 <= i < |ks| && Collect(Map(entry, ks[..i])) == Ok(es)
    ensures entry(ks[i]).Err? ==> Gather(entry, ks) == Err(entry(ks[i]).error)
    ensures entry(ks[i]).Ok? ==> Collect(Map(entry, ks[..i + 1])) == Ok(es + [entry(ks[i]).value])
    ensures entry(ks[i]).Ok? ==> Firsts(es + [entry(ks[i]).value]) == Firsts(es) + [entry(ks[i]).value.0]
    ensures entry(ks[i]).Ok? ==> Joined(es + [entry(ks[i]).value]) == Joined(es) + entry(ks[i]).value.1
  {
    CollectMapStep(entry, ks, i, es);
    if entry(ks[i]).Ok? {
      var e := entry(ks[i]).value;
      assert (es + [e])[..|es|] == es;
    }
  }

  /** The end of such a loop. */
  lemma GatherEnd<K, S, F>(entry: K -> Result<(S, seq<F>)>, ks: seq<K>, es: seq<(S, seq<F>)>)
    requires Collect(Map(entry, ks[..|ks|])) == Ok(es)
    ensures Gather(entry, ks) == Ok((Firsts(es), Joined(es)))
  {
    WholePrefix(ks);
  }

  /** A gathered first table has one row per key, the first part of that key's entry; every
      key's entry succeeded. */
  lemma GatherFirsts<K, S, F>(entry: K -> Result<(S, seq<F>)>, ks: seq<K>)
    requires Gather(entry, ks).Ok?
    ensures |Gather(entry, ks).value.0| == |ks|
    ensures forall i :: 0 <= i < |ks| ==> entry(ks[i]).Ok? && entry(ks[i]).value.0 == Gather(entry, ks).value.0[i]
  {
    var rs := Map(entry, ks);
    CollectOk(rs);
  }

  /** A gathered second table holds exactly the rows of the entries. */
  lemma GatherSeconds<K, S, F>(entry: K -> Result<(S, seq<F>)>, ks: seq<K>)
    requires Gather(entry, ks).Ok?
    ensures forall k :: 0 <= k < |ks| ==> entry(ks[k]).Ok?
    ensures forall a :: 0 <= a < |Gather(entry, ks).value.1| ==>
      exists k :: 0 <= k < |ks| && entry(ks[k]).Ok? && Gather(entry, ks).value.1[a] in entry(ks[k]).value.1
    ensures forall k, x :: 0 <= k < |ks| && entry(ks[k]).Ok? && x in entry(ks[k]).value.1 ==>
      x in Gather(entry, ks).value.1
  {
    var rs := Map(entry, ks);
    CollectOk(rs);
    var es := Collect(rs).value;
    var fs := Gather(entry, ks).value.1;
    assert fs == Joined(es);
    JoinedMembers(es);
    forall k | 0 <= k < |ks| ensures entry(ks[k]) == Ok(es[k]) {
      assert rs[k] == entry(ks[k]);
    }
    forall a | 0 <= a < |fs|
      ensures exists k :: 0 <= k < |ks| && entry(ks[k]).Ok? && fs[a] in entry(ks[k]).value.1
    {
      var k :| 0 <= k < |es| && fs[a] in es[k].1;
      assert entry(ks[k]) == Ok(es[k]);
    }
    forall k, x | 0 <= k < |ks| && entry(ks[k]).Ok? && x in entry(ks[k]).value.1
      ensures x in fs
    {
      assert entry(ks[k]) == Ok(es[k]);
      var j :| 0 <= j < |es[k].1| && es[k].1[j] == x;
    }
  }

  /** A gathering fails with the error of the first key that fails. */
  lemma GatherErr<K, S, F>(entry: K -> Result<(S, seq<F>)>, ks: seq<K>, k: int)
    requires 0 <= k < |ks| && entry(ks[k]).Err? && forall i :: 0 <= i < k ==> entry(ks[i]).Ok?
    ensures Gather(entry, ks) == Err(entry(ks[k]).error)
  {
    CollectErr(Map(entry, ks), k);
  }

  /** The first result that fails, when one does. */
  lemma {:induction false} FirstErr<T>(rs: seq<Result<T>>, j: int)
    requires 0 <= j < |rs| && rs[j].Err?
    ensures exists k :: 0 <= k <= j && rs[k].Err? && forall i :: 0 <= i < k ==> rs[i].Ok?
  {
    if exists i :: 0 <= i < j && rs[i].Err? {
      var i :| 0 <= i < j && rs[i].Err?;
      FirstErr(rs, i);
      var k :| 0 <= k <= i && rs[k].Err? && forall i :: 0 <= i < k ==> rs[i].Ok?;
      assert k <= j;
    } else {
      assert forall i :: 0 <= i < j ==> rs[i].Ok?;
    }
  }

  /** A gathering succeeds exactly when every key does, and otherwise fails with the error of
      the first key that fails. */
  lemma GatherOutcome<K, S, F>(entry: K -> Result<(S, seq<F>)>, ks: seq<K>)
    ensures Gather(entry, ks).Ok? <==> forall k :: 0 <= k < |ks| ==> entry(ks[k]).Ok?
    ensures Gather(entry, ks).Err? ==>
      exists k :: 0 <= k < |ks| && entry(ks[k]).Err? && (forall i :: 0 <= i < k ==> entry(ks[i]).Ok?) &&
                  Gather(entry, ks) == Err(entry(ks[k]).error)
  {
    if forall k :: 0 <= k < |ks| ==> entry(ks[k]).Ok? {
      CollectAllOk(Map(entry, ks));
    } else {
      var rs := Map(entry, ks);
      var j :| 0 <= j < |ks| && entry(ks[j]).Err?;
      FirstErr(rs, j);
      var k :| 0 <= k <= j && rs[k].Err? && forall i :: 0 <= i < k ==> rs[i].Ok?;
      GatherErr(entry, ks, k);
    }
  }

  // ---- keyed groups ----

  /** The pairs `(t, v)` for the values `vs` of key `t`. */
  function Tag<K, V>(t: K, vs: seq<V>): (ps: seq<(K, V)>)
    ensures |ps| == |vs|
    ensures forall j :: 0 <= j < |vs| ==> ps[j] == (t, vs[j])
  {
    if vs == [] then [] else Tag(t, vs[..|vs| - 1]) + [(t, vs[|vs| - 1])]
  }

  /** One group of pairs per key, in the order of the keys. */
  function Groups<K, V>(ts: seq<K>, values: K -> seq<V>): (gs: seq<seq<(K, V)>>)
    ensures |gs| == |ts|
    ensures forall i :: 0 <= i < |ts| ==> gs[i] == Tag(ts[i], values(ts[i]))
  {
    if ts == [] then [] else Groups(ts[..|ts| - 1], values) + [Tag(ts[|ts| - 1], values(ts[|ts| - 1]))]
  }

  /** A pair is in the flattened groups exactly when its key is listed and its value is one
      of that key's. */
  lemma FlattenGroupsMembers<K, V>(ts: seq<K>, values: K -> seq<V>, t: K, v: V)
    ensures (t, v) in Flatten(Groups(ts, values)) <==> t in ts && v in values(t)
  {
    var gs := Groups(ts, values);
    if (t, v) in Flatten(gs) {
      FlattenFrom(gs);
      var i :| 0 <= i < |gs| && (t, v) in gs[i];
      var b :| 0 <= b < |gs[i]| && gs[i][b] == (t, v);
      assert ts[i] == t && values(t)[b] == v;
    }
    if t in ts && v in values(t) {
      FlattenHas(gs);
      var i :| 0 <= i < |ts| && ts[i] == t;
      var b :| 0 <= b < |values(t)| && values(t)[b] == v;
      assert gs[i][b] == (t, v);
    }
  }

  /** Lexicographic order on pairs. */
  ghost predicate Lex<K, V>(ltk: (K, K) -> bool, lt: (V, V) -> bool, a: (K, V), b: (K, V))
  {
    ltk(a.0, b.0) || (a.0 == b.0 && lt(a.1, b.1))
  }

  /** Ascending keys, each with ascending values, give ascending pairs. */
  lemma {:induction false} FlattenGroupsAscend<K, V>(ts: seq<K>, values: K -> seq<V>, ltk: (K, K) -> bool, lt: (V, V) -> bool)
    requires StrictlySorted(ts, ltk)
    requires forall i :: 0 <= i < |ts| ==> StrictlySorted(values(ts[i]), lt)
    ensures StrictlySorted(Flatten(Groups(ts, values)), (a: (K, V), b: (K, V)) => Lex(ltk, lt, a, b))
  {
    if ts != [] {
      var n := |ts| - 1;
      var less := (a: (K, V), b: (K, V)) => Lex(ltk, lt, a, b);
      var gs := Groups(ts, values);
      var init := Groups(ts[..n], values);
      var p, last := Flatten(init), Tag(ts[n], values(ts[n]));
      assert gs == init + [last];
      assert Flatten(gs) == p + last;
      FlattenGroupsAscend(ts[..n], values, ltk, lt);
      TagAscends(ts[n], values(ts[n]), ltk, lt);
      FlattenGroupsKeys(ts[..n], values);
      forall a, b | 0 <= a < |p| && 0 <= b < |last| ensures less(p[a], last[b]) {
        var i :| 0 <= i < n && p[a].0 == ts[..n][i];
        assert ltk(ts[i], ts[n]);
      }
      SortedConcat(p, last, less);
    }
  }

  /** The keys of the flattened groups are listed keys. */
  lemma {:induction false} FlattenGroupsKeys<K, V>(ts: seq<K>, values: K -> seq<V>)
    ensures forall a :: 0 <= a < |Flatten(Groups(ts, values))| ==>
      exists i :: 0 <= i < |ts| && Flatten(Groups(ts, values))[a].0 == ts[i]
  {
    if ts == [] {
      assert Groups(ts, values) == [];
      assert Flatten(Groups(ts, values)) == [];
    } else {
      var n := |ts| - 1;
      var init := Groups(ts[..n], values);
      var p, last := Flatten(init), Tag(ts[n], values(ts[n]));
      assert Groups(ts, values) == init + [last];
      assert Flatten(Groups(ts, values)) == p + last;
      FlattenGroupsKeys(ts[..n], values);
      forall a | 0 <= a < |p + last| ensures exists i :: 0 <= i < |ts| && (p + last)[a].0 == ts[i] {
        if a < |p| {
          var i :| 0 <= i < n && p[a].0 == ts[..n][i];
          assert (p + last)[a].0 == ts[i];
        } else {
          assert (p + last)[a] == last[a - |p|];
          assert (p + last)[a].0 == ts[n];
        }
      }
      assert Flatten(Groups(ts, values)) == p + last;
    }
  }

  /** One key with ascending values gives ascending pairs. */
  lemma TagAscends<K, V>(t: K, vs: seq<V>, ltk: (K, K) -> bool, lt: (V, V) -> bool)
    requires StrictlySorted(vs, lt)
    ensures StrictlySorted(Tag(t, vs), (a: (K, V), b: (K, V)) => Lex(ltk, lt, a, b))
  {
  }

  /** Two ascending sequences, the first wholly below the second, ascend together. */
  lemma SortedConcat<T>(p: seq<T>, q: seq<T>, less: (T, T) -> bool)
    requires StrictlySorted(p, less) && StrictlySorted(q, less)
    requires forall a, b :: 0 <= a < |p| && 0 <= b < |q| ==> less(p[a], q[b])
    ensures StrictlySorted(p + q, less)
  {
    forall a, b | 0 <= a < b < |p + q| ensures less((p + q)[a], (p + q)[b]) {
      if b < |p| {
        assert (p + q)[a] == p[a] && (p + q)[b] == p[b];
      } else if a >= |p| {
        assert (p + q)[a] == q[a - |p|] && (p + q)[b] == q[b - |p|];
      } else {
        assert (p + q)[a] == p[a] && (p + q)[b] == q[b - |p|];
      }
    }
  }
}
