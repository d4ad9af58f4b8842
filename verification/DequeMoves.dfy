/** What the moves of an insertion or an erasure in the middle of a deque make of its elements. */
module DequeMoves {
  import opened DequeStrips

  function Inserted<T>(x: seq<T>, i: nat, v: seq<T>): (y: seq<T>)
    requires i <= |x|
    ensures |y| == |x| + |v|
  {
    x[..i] + v + x[i..]
  }

  function Removed<T>(x: seq<T>, i: nat, j: nat): (y: seq<T>)
    requires i <= j <= |x|
    ensures |y| == |x| - (j - i)
  {
    x[..i] + x[j..]
  }

  lemma OverwriteTwice<C>(u: seq<C>, d: nat, v: seq<C>, w: seq<C>)
    requires d + |v| + |w| <= |u|
    ensures Overwrite(Overwrite(u, d, v), d + |v|, w) == Overwrite(u, d, v + w)
  {
  }

  lemma FullsAppend<T>(v: seq<T>, w: seq<T>)
    ensures Fulls(v) + Fulls(w) == Fulls(v + w)
  {
  }

  /** v and then w constructed before the elements. */
  lemma GapFilled<T>(d: nat, x: seq<T>, b: nat, v: seq<T>, w: seq<T>)
    ensures var a := d + |v| + |w|;
      var u := Overwrite(Layout(a, x, b), d, Fulls(v));
      && AllRaw(u, d + |v|, a)
      && Overwrite(u, d + |v|, Fulls(w)) == Layout(d, v + w + x, b)
  {
    hide Layout, Overwrite;
    var a := d + |v| + |w|;
    LayoutGap(a, x, b, d, v);
    OverwriteTwice(Layout(a, x, b), d, Fulls(v), Fulls(w));
    FullsAppend(v, w);
    LayoutBefore(a, x, b, v + w);
  }

  lemma CopiesSplit<T>(n: nat, m: nat, x: T)
    requires m <= n
    ensures Copies(n, x)[..m] == Copies(m, x) && Copies(n, x)[m..] == Copies(n - m, x)
  {
  }

  lemma InsertedAt<T>(x: seq<T>, i: nat, v: seq<T>, k: nat)
    requires i <= |x| && k < |x| + |v|
    ensures Inserted(x, i, v)[k] == (if k < i then x[k] else if k < i + |v| then v[k - i] else x[k - |v|])
  {
  }

  /** The first n elements copied to the front, the others before i moved down, and v written before the old place of i. */
  lemma FrontFar<T>(x: seq<T>, i: nat, v: seq<T>)
    requires |v| <= i <= |x|
    ensures var n := |v|;
      var y := x[..n] + x;
      Overwrite(Overwrite(y, n, y[2 * n..n + i]), i, v) == Inserted(x, i, v)
  {
    hide Overwrite, Inserted;
    var n := |v|;
    var y := x[..n] + x;
    var z := Overwrite(y, n, y[2 * n..n + i]);
    var w := Overwrite(z, i, v);
    forall k | 0 <= k < |w| ensures w[k] == Inserted(x, i, v)[k] {
      OverwriteAt(y, n, y[2 * n..n + i], k);
      OverwriteAt(z, i, v, k);
      InsertedAt(x, i, v, k);
    }
  }

  /** All elements before i copied to the front with the first part of v behind them, and the rest of v over them. */
  lemma FrontNear<T>(x: seq<T>, i: nat, v: seq<T>)
    requires i <= |x| && i <= |v|
    ensures var m := |v| - i;
      Overwrite(x[..i] + v[..m] + x, |v|, v[m..]) == Inserted(x, i, v)
  {
    hide Overwrite, Inserted;
    var m := |v| - i;
    var y := x[..i] + v[..m] + x;
    var w := Overwrite(y, |v|, v[m..]);
    forall k | 0 <= k < |w| ensures w[k] == Inserted(x, i, v)[k] {
      OverwriteAt(y, |v|, v[m..], k);
      InsertedAt(x, i, v, k);
    }
  }

  lemma BackFar<T>(x: seq<T>, i: nat, v: seq<T>)
    requires i <= |x| && |v| <= |x| - i
    ensures var m := |x| - |v|;
      var y := x + x[m..];
      Overwrite(Overwrite(y, i + |v|, y[i..m]), i, v) == Inserted(x, i, v)
  {
    hide Overwrite, Inserted;
    var m := |x| - |v|;
    var y := x + x[m..];
    var z := Overwrite(y, i + |v|, y[i..m]);
    var w := Overwrite(z, i, v);
    forall k | 0 <= k < |w| ensures w[k] == Inserted(x, i, v)[k] {
      OverwriteAt(y, i + |v|, y[i..m], k);
      OverwriteAt(z, i, v, k);
      InsertedAt(x, i, v, k);
    }
  }

  lemma BackNear<T>(x: seq<T>, i: nat, v: seq<T>)
    requires i <= |x| && |x| - i <= |v|
    ensures var m := |x| - i;
      Overwrite(x + v[m..] + x[i..], i, v[..m]) == Inserted(x, i, v)
  {
    hide Overwrite, Inserted;
    var m := |x| - i;
    var y := x + v[m..] + x[i..];
    var w := Overwrite(y, i, v[..m]);
    forall k | 0 <= k < |w| ensures w[k] == Inserted(x, i, v)[k] {
      OverwriteAt(y, i, v[..m], k);
      InsertedAt(x, i, v, k);
    }
  }

  /** One element: the first one doubled, or the last one, and the ones up to i moved by one. */
  lemma FrontOne<T>(x: seq<T>, i: nat, e: T)
    requires 0 < i <= |x|
    ensures var y := [x[0]] + x;
      Overwrite(y, 1, y[2..i + 1])[i := e] == Inserted(x, i, [e])
  {
    hide Overwrite, Inserted;
    var y := [x[0]] + x;
    var z := Overwrite(y, 1, y[2..i + 1]);
    forall k | 0 <= k < |z| ensures z[i := e][k] == Inserted(x, i, [e])[k] {
      OverwriteAt(y, 1, y[2..i + 1], k);
      InsertedAt(x, i, [e], k);
    }
  }

  lemma BackOne<T>(x: seq<T>, i: nat, e: T)
    requires i < |x|
    ensures var y := x + [x[|x| - 1]];
      Overwrite(y, i + 1, y[i..|x| - 1])[i := e] == Inserted(x, i, [e])
  {
    hide Overwrite, Inserted;
    var y := x + [x[|x| - 1]];
    var z := Overwrite(y, i + 1, y[i..|x| - 1]);
    forall k | 0 <= k < |z| ensures z[i := e][k] == Inserted(x, i, [e])[k] {
      OverwriteAt(y, i + 1, y[i..|x| - 1], k);
      InsertedAt(x, i, [e], k);
    }
  }

  /** The elements before i moved up over the ones to erase, or the ones from j moved down. */
  lemma EraseFront<T>(x: seq<T>, i: nat, j: nat)
    requires i <= j <= |x|
    ensures Overwrite(x, j - i, x[0..i])[j - i..] == Removed(x, i, j)
  {
  }

  lemma EraseBack<T>(x: seq<T>, i: nat, j: nat)
    requires i <= j <= |x|
    ensures Overwrite(x, i, x[j..|x|])[..|x| - (j - i)] == Removed(x, i, j)
  {
  }

  lemma RemovedAll<T>(x: seq<T>)
    ensures Removed(x, 0, |x|) == []
  {
  }
}
