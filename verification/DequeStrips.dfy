/** The cells of a deque: buffers in memory, read one after another as the map lists them. */
module DequeStrips {
  import opened Sequences
  import opened DequeIterator

  /** A cell holds an element that was constructed and not destroyed, or none. */
  datatype Cell<T> = Raw | Full(value: T)

  function Raws<T>(n: nat): (u: seq<Cell<T>>)
    ensures |u| == n
  {
    seq(n, _ => Raw)
  }

  function Fulls<T>(x: seq<T>): (u: seq<Cell<T>>)
    ensures |u| == |x|
  {
    seq(|x|, i requires 0 <= i < |x| => Full(x[i]))
  }

  function Copies<T>(n: nat, x: T): (u: seq<T>)
    ensures |u| == n
  {
    seq(n, _ => x)
  }

  /** The elements x between a cells and b cells that hold none. */
  function Layout<T>(a: nat, x: seq<T>, b: nat): (u: seq<Cell<T>>)
    ensures |u| == a + |x| + b
  {
    Raws(a) + Fulls(x) + Raws(b)
  }

  /** u with v in place of what is at d. */
  function Overwrite<C>(u: seq<C>, d: nat, v: seq<C>): (w: seq<C>)
    requires d + |v| <= |u|
    ensures |w| == |u|
  {
    u[..d] + v + u[d + |v|..]
  }

  lemma LayoutAt<T>(a: nat, x: seq<T>, b: nat, i: nat)
    requires i < a + |x| + b
    ensures Layout(a, x, b)[i] == if a <= i < a + |x| then Full(x[i - a]) else Raw
  {
  }

  lemma LayoutSlice<T>(a: nat, x: seq<T>, b: nat, i: nat, j: nat)
    requires i <= j <= |x|
    ensures Layout(a, x, b)[a + i..a + j] == Fulls(x[i..j])
  {
    hide Layout;
    forall k | 0 <= k < j - i ensures Layout(a, x, b)[a + i..a + j][k] == Fulls(x[i..j])[k] {
      LayoutAt(a, x, b, a + i + k);
    }
  }

  lemma LayoutFull<T>(a: nat, x: seq<T>, b: nat, i: nat, j: nat)
    requires i <= j <= |x|
    ensures AllFull(Layout(a, x, b), a + i, a + j)
  {
    hide Layout;
    forall k | a + i <= k < a + j ensures Layout(a, x, b)[k].Full? {
      LayoutAt(a, x, b, k);
    }
  }

  lemma LayoutRaw<T>(a: nat, x: seq<T>, b: nat)
    ensures AllRaw(Layout(a, x, b), 0, a) && AllRaw(Layout(a, x, b), a + |x|, a + |x| + b)
  {
  }

  lemma LayoutOverwrite<T>(a: nat, x: seq<T>, b: nat, d: nat, v: seq<T>)
    requires d + |v| <= |x|
    ensures Overwrite(Layout(a, x, b), a + d, Fulls(v)) == Layout(a, Overwrite(x, d, v), b)
  {
    hide Layout;
    var w := Overwrite(Layout(a, x, b), a + d, Fulls(v));
    forall k | 0 <= k < |w| ensures w[k] == Layout(a, Overwrite(x, d, v), b)[k] {
      LayoutAt(a, x, b, k);
      LayoutAt(a, Overwrite(x, d, v), b, k);
    }
  }

  /** Constructing elements right before the others, or right behind them. */
  lemma LayoutBefore<T>(a: nat, x: seq<T>, b: nat, v: seq<T>)
    requires |v| <= a
    ensures Overwrite(Layout(a, x, b), a - |v|, Fulls(v)) == Layout(a - |v|, v + x, b)
  {
    hide Layout;
    var w := Overwrite(Layout(a, x, b), a - |v|, Fulls(v));
    forall k | 0 <= k < |w| ensures w[k] == Layout(a - |v|, v + x, b)[k] {
      LayoutAt(a, x, b, k);
      LayoutAt(a - |v|, v + x, b, k);
    }
  }

  lemma LayoutBehind<T>(a: nat, x: seq<T>, b: nat, v: seq<T>)
    requires |v| <= b
    ensures Overwrite(Layout(a, x, b), a + |x|, Fulls(v)) == Layout(a, x + v, b - |v|)
  {
    hide Layout;
    var w := Overwrite(Layout(a, x, b), a + |x|, Fulls(v));
    forall k | 0 <= k < |w| ensures w[k] == Layout(a, x + v, b - |v|)[k] {
      LayoutAt(a, x, b, k);
      LayoutAt(a, x + v, b - |v|, k);
    }
  }

  /** The gap left by elements constructed away from the others. */
  lemma LayoutGap<T>(a: nat, x: seq<T>, b: nat, d: nat, v: seq<T>)
    requires d + |v| <= a
    ensures AllRaw(Overwrite(Layout(a, x, b), d, Fulls(v)), d + |v|, a)
  {
    hide Layout, Overwrite;
    var w := Overwrite(Layout(a, x, b), d, Fulls(v));
    forall k | d + |v| <= k < a ensures w[k].Raw? {
      OverwriteAt(Layout(a, x, b), d, Fulls(v), k);
      LayoutAt(a, x, b, k);
    }
  }

  /** Destroying the first n, or all but the first n. */
  lemma LayoutDropFront<T>(a: nat, x: seq<T>, b: nat, n: nat)
    requires n <= |x|
    ensures Overwrite(Layout(a, x, b), a, Raws(n)) == Layout(a + n, x[n..], b)
  {
    hide Layout;
    var w := Overwrite(Layout(a, x, b), a, Raws(n));
    forall k | 0 <= k < |w| ensures w[k] == Layout(a + n, x[n..], b)[k] {
      LayoutAt(a, x, b, k);
      LayoutAt(a + n, x[n..], b, k);
    }
  }

  lemma LayoutDropBack<T>(a: nat, x: seq<T>, b: nat, n: nat)
    requires n <= |x|
    ensures Overwrite(Layout(a, x, b), a + n, Raws(|x| - n)) == Layout(a, x[..n], b + |x| - n)
  {
    hide Layout;
    var w := Overwrite(Layout(a, x, b), a + n, Raws(|x| - n));
    forall k | 0 <= k < |w| ensures w[k] == Layout(a, x[..n], b + |x| - n)[k] {
      LayoutAt(a, x, b, k);
      LayoutAt(a, x[..n], b + |x| - n, k);
    }
  }

  lemma SetElement<T>(a: nat, x: seq<T>, b: nat, i: nat, e: T)
    requires i < |x|
    ensures Layout(a, x, b)[a + i := Full(e)] == Layout(a, x[i := e], b)
  {
    hide Layout;
    var w := Layout(a, x, b)[a + i := Full(e)];
    forall k | 0 <= k < |w| ensures w[k] == Layout(a, x[i := e], b)[k] {
      LayoutAt(a, x, b, k);
      LayoutAt(a, x[i := e], b, k);
    }
  }

  /** Constructing one element behind the others or before them, and destroying the last or the first. */
  lemma PutBehind<T>(a: nat, x: seq<T>, b: nat, e: T)
    requires b > 0
    ensures Layout(a, x, b)[a + |x|].Raw? && Layout(a, x, b)[a + |x| := Full(e)] == Layout(a, x + [e], b - 1)
  {
  }

  lemma PutBefore<T>(a: nat, x: seq<T>, b: nat, e: T)
    requires a > 0
    ensures Layout(a, x, b)[a - 1].Raw? && Layout(a, x, b)[a - 1 := Full(e)] == Layout(a - 1, [e] + x, b)
  {
  }

  lemma TakeLast<T>(a: nat, x: seq<T>, b: nat)
    requires x != []
    ensures Layout(a, x, b)[a + |x| - 1].Full? && Layout(a, x, b)[a + |x| - 1 := Raw] == Layout(a, x[..|x| - 1], b + 1)
  {
  }

  lemma TakeFirst<T>(a: nat, x: seq<T>, b: nat)
    requires x != []
    ensures Layout(a, x, b)[a].Full? && Layout(a, x, b)[a := Raw] == Layout(a + 1, x[1..], b)
  {
  }

  lemma RawsAppend<T>(m: nat, n: nat)
    ensures Raws<T>(m) + Raws(n) == Raws(m + n)
  {
  }

  lemma LayoutPadded<T>(a: nat, x: seq<T>, b: nat, n: nat)
    ensures Raws(n) + Layout(a, x, b) == Layout(n + a, x, b)
    ensures Layout(a, x, b) + Raws(n) == Layout(a, x, b + n)
  {
  }

  lemma WiderLayout<T>(a: nat, x: seq<T>, b: nat, k: nat, j: nat)
    ensures Raws(k) + Layout(a, x, b) + Raws(j) == Layout(k + a, x, b + j)
  {
    hide Layout;
    LayoutPadded(a, x, b, k);
    LayoutPadded(k + a, x, b, j);
  }

  /** A part of the cells without elements is a part of the padding. */
  lemma LayoutCut<T>(a: nat, x: seq<T>, b: nat, i: nat, j: nat)
    requires i <= a && j <= b
    ensures Layout(a, x, b)[i..a + |x| + b - j] == Layout(a - i, x, b - j)
    ensures Layout(a, x, b)[..i] == Raws(i)
    ensures Layout(a, x, b)[a + |x| + b - j..] == Raws(j)
    ensures AllRaw(Layout(a, x, b), 0, i) && AllRaw(Layout(a, x, b), a + |x| + b - j, a + |x| + b)
  {
    hide Layout;
    var n := a + |x| + b;
    var part := Layout(a, x, b)[i..n - j];
    forall k | 0 <= k < n - j - i ensures part[k] == Layout(a - i, x, b - j)[k] {
      LayoutAt(a, x, b, i + k);
      LayoutAt(a - i, x, b - j, k);
    }
    forall k | 0 <= k < i ensures Layout(a, x, b)[k] == Raw { LayoutAt(a, x, b, k); }
    forall k | n - j <= k < n ensures Layout(a, x, b)[k] == Raw { LayoutAt(a, x, b, k); }
  }

  predicate AllFull<T>(u: seq<Cell<T>>, a: int, b: int) {
    0 <= a <= b <= |u| && forall k :: a <= k < b ==> u[k].Full?
  }

  predicate AllRaw<T>(u: seq<Cell<T>>, a: int, b: int) {
    0 <= a <= b <= |u| && forall k :: a <= k < b ==> u[k].Raw?
  }

  lemma OverwriteNothing<C>(u: seq<C>, d: nat, v: seq<C>)
    requires d <= |u|
    ensures Overwrite(u, d, v[..0]) == u && (d <= |u| - |v| ==> Overwrite(u, d + |v|, v[|v|..]) == u)
  {
  }

  /** One more element copied forwards, and one more copied backwards. */
  lemma OverwriteForward<C>(u: seq<C>, d: nat, v: seq<C>, k: nat)
    requires d + |v| <= |u| && k < |v|
    ensures Overwrite(u, d, v[..k])[d + k := v[k]] == Overwrite(u, d, v[..k + 1])
  {
  }

  lemma OverwriteBackward<C>(u: seq<C>, d: nat, v: seq<C>, k: nat)
    requires d + |v| <= |u| && 0 < k <= |v|
    ensures Overwrite(u, d + k, v[k..])[d + k - 1 := v[k - 1]] == Overwrite(u, d + k - 1, v[k - 1..])
  {
  }

  lemma OverwriteAt<C>(u: seq<C>, d: nat, v: seq<C>, k: nat)
    requires d + |v| <= |u| && k < |u|
    ensures Overwrite(u, d, v)[k] == if d <= k < d + |v| then v[k - d] else u[k]
  {
  }

  /** Copying the k-th element of a part of u forwards, over what may be an earlier piece of the same part. */
  lemma CopyForward<T>(u: seq<Cell<T>>, a: nat, b: nat, d: nat, k: nat)
    requires AllFull(u, a, b) && AllFull(u, d, d + b - a) && k < b - a
    requires d <= a || b <= d
    ensures var w := Overwrite(u, d, u[a..b][..k]);
      && AllFull(w, a + k, a + k + 1) && AllFull(w, d + k, d + k + 1) && w[a + k] == u[a + k]
      && w[d + k := u[a + k]] == Overwrite(u, d, u[a..b][..k + 1])
  {
    hide Overwrite;
    OverwriteAt(u, d, u[a..b][..k], a + k);
    OverwriteAt(u, d, u[a..b][..k], d + k);
    OverwriteForward(u, d, u[a..b], k);
  }

  lemma CopyBackwards<T>(u: seq<Cell<T>>, a: nat, b: nat, d: nat, k: nat)
    requires AllFull(u, a, b) && AllFull(u, d, d + b - a) && 0 < k <= b - a
    requires a <= d || d + b - a <= a
    ensures var w := Overwrite(u, d + k, u[a..b][k..]);
      && AllFull(w, a + k - 1, a + k) && AllFull(w, d + k - 1, d + k) && w[a + k - 1] == u[a + k - 1]
      && w[d + k - 1 := u[a + k - 1]] == Overwrite(u, d + k - 1, u[a..b][k - 1..])
  {
    hide Overwrite;
    OverwriteAt(u, d + k, u[a..b][k..], a + k - 1);
    OverwriteAt(u, d + k, u[a..b][k..], d + k - 1);
    OverwriteBackward(u, d, u[a..b], k);
  }

  /** Writing the k-th element of v behind the ones before it. */
  lemma WriteForward<T>(u: seq<Cell<T>>, d: nat, v: seq<Cell<T>>, k: nat)
    requires d + |v| <= |u| && k < |v|
    ensures var w := Overwrite(u, d, v[..k]);
      w[d + k] == u[d + k] && w[d + k := v[k]] == Overwrite(u, d, v[..k + 1])
  {
    hide Overwrite;
    OverwriteAt(u, d, v[..k], d + k);
    OverwriteForward(u, d, v, k);
  }

  /** The k-th element of a part of u, read after the earlier ones went elsewhere. */
  lemma ReadApart<T>(u: seq<Cell<T>>, a: nat, b: nat, d: nat, k: nat)
    requires AllFull(u, a, b) && AllRaw(u, d, d + b - a) && k < b - a
    ensures Overwrite(u, d, u[a..b][..k])[a + k] == u[a + k] == u[a..b][k]
  {
    hide Overwrite;
    OverwriteAt(u, d, u[a..b][..k], a + k);
  }

  /** The k-th element of a part of a sequence, moved down or moved up over the part itself. */
  lemma MoveDown<C>(u: seq<C>, a: nat, b: nat, d: nat, k: nat)
    requires a <= b <= |u| && d <= a && k < b - a
    ensures var w := Overwrite(u, d, u[a..b][..k]);
      w[d + k := w[a + k]] == Overwrite(u, d, u[a..b][..k + 1])
  {
    hide Overwrite;
    OverwriteAt(u, d, u[a..b][..k], a + k);
    OverwriteForward(u, d, u[a..b], k);
  }

  lemma MoveUp<C>(u: seq<C>, a: nat, b: nat, d: nat, k: nat)
    requires a <= b <= |u| && a <= d && d + b - a <= |u| && 0 < k <= b - a
    ensures var w := Overwrite(u, d + k, u[a..b][k..]);
      w[d + k - 1 := w[a + k - 1]] == Overwrite(u, d + k - 1, u[a..b][k - 1..])
  {
    hide Overwrite;
    OverwriteAt(u, d + k, u[a..b][k..], a + k - 1);
    OverwriteBackward(u, d, u[a..b], k);
  }

  lemma OverwriteSlice<C>(u: seq<C>, d: nat, v: seq<C>)
    requires d + |v| <= |u|
    ensures Overwrite(u, d, v)[d..d + |v|] == v
  {
  }

  // ---------- the buffers one after another ----------

  function Strip<T>(nodes: seq<nat>, heap: seq<seq<Cell<T>>>): seq<Cell<T>> {
    if nodes == [] then [] else (if nodes[0] < |heap| then heap[nodes[0]] else []) + Strip(nodes[1..], heap)
  }

  /** The nodes are different buffers of s cells, all of them allocated. */
  ghost predicate Buffers<T>(nodes: seq<nat>, heap: seq<seq<Cell<T>>>, live: set<nat>, s: nat) {
    && Distinct(nodes)
    && (forall i :: 0 <= i < |nodes| ==> nodes[i] in live)
    && (forall i :: 0 <= i < |nodes| ==> nodes[i] < |heap| && |heap[nodes[i]]| == s)
  }

  lemma {:induction false} StripLength<T>(nodes: seq<nat>, heap: seq<seq<Cell<T>>>, live: set<nat>, s: nat)
    requires Buffers(nodes, heap, live, s)
    ensures |Strip(nodes, heap)| == |nodes| * s
  {
    if nodes != [] {
      StripLength(nodes[1..], heap, live, s);
      Rows(s, |nodes| - 1, 0);
    }
  }

  lemma {:induction false} StripAppend<T>(x: seq<nat>, y: seq<nat>, heap: seq<seq<Cell<T>>>)
    ensures Strip(x + y, heap) == Strip(x, heap) + Strip(y, heap)
  {
    hide Strip;
    if x == [] {
      StripEmpty(heap);
      assert x + y == y;
    } else {
      StripAppend(x[1..], y, heap);
      StripFirst(x, heap);
      StripFirst(x + y, heap);
      assert (x + y)[1..] == x[1..] + y;
    }
  }

  lemma StripEmpty<T>(heap: seq<seq<Cell<T>>>)
    ensures Strip([], heap) == []
  {
  }

  lemma StripFirst<T>(nodes: seq<nat>, heap: seq<seq<Cell<T>>>)
    requires nodes != []
    ensures Strip(nodes, heap) == (if nodes[0] < |heap| then heap[nodes[0]] else []) + Strip(nodes[1..], heap)
  {
  }

  lemma {:induction false} StripAgrees<T>(nodes: seq<nat>, heap: seq<seq<Cell<T>>>, heap': seq<seq<Cell<T>>>)
    requires forall i :: 0 <= i < |nodes| ==> nodes[i] < |heap| && nodes[i] < |heap'| && heap[nodes[i]] == heap'[nodes[i]]
    ensures Strip(nodes, heap) == Strip(nodes, heap')
  {
    if nodes != [] {
      StripAgrees(nodes[1..], heap, heap');
    }
  }

  /** Cell c of the i-th buffer. */
  lemma {:induction false} StripAt<T>(nodes: seq<nat>, heap: seq<seq<Cell<T>>>, live: set<nat>, s: nat, i: nat, c: nat)
    requires Buffers(nodes, heap, live, s) && i < |nodes| && c < s
    ensures 0 <= i * s + c < |Strip(nodes, heap)| && Strip(nodes, heap)[i * s + c] == heap[nodes[i]][c]
  {
    if i > 0 {
      StripAt(nodes[1..], heap, live, s, i - 1, c);
      Rows(s, i, 0);
    }
  }

  function Put<T>(heap: seq<seq<Cell<T>>>, a: nat, c: nat, v: Cell<T>): (r: seq<seq<Cell<T>>>)
    requires a < |heap| && c < |heap[a]|
    ensures |r| == |heap|
    ensures forall k :: 0 <= k < |heap| ==> |r[k]| == |heap[k]| && (k != a ==> r[k] == heap[k])
  {
    heap[a := heap[a][c := v]]
  }

  lemma PutAgrees<T>(nodes: seq<nat>, heap: seq<seq<Cell<T>>>, a: nat, c: nat, v: Cell<T>)
    requires a < |heap| && c < |heap[a]|
    requires forall i :: 0 <= i < |nodes| ==> nodes[i] < |heap| && nodes[i] != a
    ensures Strip(nodes, Put(heap, a, c, v)) == Strip(nodes, heap)
  {
    StripAgrees(nodes, heap, Put(heap, a, c, v));
  }

  lemma {:induction false} PutStrip<T>(nodes: seq<nat>, heap: seq<seq<Cell<T>>>, live: set<nat>, s: nat, i: nat, c: nat, v: Cell<T>)
    requires Buffers(nodes, heap, live, s) && i < |nodes| && c < s
    ensures 0 <= i * s + c < |Strip(nodes, heap)|
    ensures Strip(nodes, Put(heap, nodes[i], c, v)) == Strip(nodes, heap)[i * s + c := v]
  {
    hide Strip;
    StripAt(nodes, heap, live, s, i, c);
    StripFirst(nodes, heap);
    StripFirst(nodes, Put(heap, nodes[i], c, v));
    if i == 0 {
      PutAgrees(nodes[1..], heap, nodes[0], c, v);
    } else {
      PutStrip(nodes[1..], heap, live, s, i - 1, c, v);
      Rows(s, i, 0);
    }
  }

  function Members(nodes: seq<nat>): (r: set<nat>)
    ensures forall n :: n in r <==> n in nodes
  {
    set n | n in nodes
  }

  /** A buffer that was just allocated, before the others or behind them. */
  lemma StripFresh<T>(nodes: seq<nat>, heap: seq<seq<Cell<T>>>, live: set<nat>, s: nat)
    requires Buffers(nodes, heap, live, s)
    ensures var a, h := |heap|, heap + [Raws(s)];
      && Strip([a] + nodes, h) == Raws(s) + Strip(nodes, heap)
      && Strip(nodes + [a], h) == Strip(nodes, heap) + Raws(s)
  {
    hide Strip;
    var a, h := |heap|, heap + [Raws(s)];
    StripAgrees(nodes, heap, h);
    StripAppend([a], nodes, h);
    StripAppend(nodes, [a], h);
    StripOne(a, h);
  }

  lemma BuffersFresh<T>(nodes: seq<nat>, heap: seq<seq<Cell<T>>>, live: set<nat>, s: nat)
    requires Buffers(nodes, heap, live, s)
    ensures Buffers([|heap|] + nodes, heap + [Raws(s)], live + {|heap|}, s)
    ensures Buffers(nodes + [|heap|], heap + [Raws(s)], live + {|heap|}, s)
  {
  }

  lemma MembersFresh(nodes: seq<nat>, a: nat)
    ensures Members([a] + nodes) == Members(nodes) + {a}
    ensures Members(nodes + [a]) == Members(nodes) + {a}
  {
  }

  /** The last buffer, or the first, given back. */
  lemma BuffersDrop<T>(nodes: seq<nat>, heap: seq<seq<Cell<T>>>, live: set<nat>, s: nat)
    requires Buffers(nodes, heap, live, s) && nodes != []
    ensures var n := |nodes| - 1;
      && Buffers(nodes[..n], heap, live - {nodes[n]}, s) && Members(nodes[..n]) == Members(nodes) - {nodes[n]}
      && Buffers(nodes[1..], heap, live - {nodes[0]}, s) && Members(nodes[1..]) == Members(nodes) - {nodes[0]}
  {
  }

  lemma StripDropLast<T>(nodes: seq<nat>, heap: seq<seq<Cell<T>>>, live: set<nat>, s: nat)
    requires Buffers(nodes, heap, live, s) && nodes != []
    ensures var u, n := Strip(nodes, heap), |nodes| - 1;
      |u| >= s && heap[nodes[n]] == u[|u| - s..] && Strip(nodes[..n], heap) == u[..|u| - s]
  {
    hide Strip;
    var n := |nodes| - 1;
    assert nodes == nodes[..n] + [nodes[n]];
    StripAppend(nodes[..n], [nodes[n]], heap);
    StripOne(nodes[n], heap);
  }

  lemma StripDropFirst<T>(nodes: seq<nat>, heap: seq<seq<Cell<T>>>, live: set<nat>, s: nat)
    requires Buffers(nodes, heap, live, s) && nodes != []
    ensures var u := Strip(nodes, heap);
      |u| >= s && heap[nodes[0]] == u[..s] && Strip(nodes[1..], heap) == u[s..]
  {
    hide Strip;
    StripFirst(nodes, heap);
  }

  lemma StripOne<T>(a: nat, heap: seq<seq<Cell<T>>>)
    requires a < |heap|
    ensures Strip([a], heap) == heap[a]
  {
    StripFirst([a], heap);
    StripEmpty(heap);
  }

  /** The first m buffers and the others. */
  lemma BuffersParts<T>(nodes: seq<nat>, heap: seq<seq<Cell<T>>>, live: set<nat>, s: nat, m: nat)
    requires Buffers(nodes, heap, live, s) && m <= |nodes|
    ensures Buffers(nodes[..m], heap, live - Members(nodes[m..]), s)
    ensures Buffers(nodes[..m], heap, live, s) && Buffers(nodes[m..], heap, live, s)
    ensures Members(nodes[..m]) == Members(nodes) - Members(nodes[m..])
    ensures Members(nodes[m..]) == Members(nodes) - Members(nodes[..m])
  {
    assert forall n :: n in nodes <==> n in nodes[..m] || n in nodes[m..] by {
      assert nodes == nodes[..m] + nodes[m..];
    }
  }

  lemma NotYet(nodes: seq<nat>, m: nat, i: nat)
    requires Distinct(nodes) && m <= i < |nodes|
    ensures nodes[i] !in Members(nodes[m..i])
  {
  }

  lemma StripParts<T>(nodes: seq<nat>, heap: seq<seq<Cell<T>>>, live: set<nat>, s: nat, m: nat)
    requires Buffers(nodes, heap, live, s) && m <= |nodes|
    ensures 0 <= m * s <= |Strip(nodes, heap)|
    ensures Strip(nodes[..m], heap) == Strip(nodes, heap)[..m * s]
    ensures Strip(nodes[m..], heap) == Strip(nodes, heap)[m * s..]
  {
    hide Strip, Members;
    BuffersParts(nodes, heap, live, s, m);
    StripLength(nodes[..m], heap, live, s);
    assert nodes == nodes[..m] + nodes[m..];
    StripAppend(nodes[..m], nodes[m..], heap);
  }

  lemma RawBuffer<T>(nodes: seq<nat>, heap: seq<seq<Cell<T>>>, live: set<nat>, s: nat, m: nat, i: nat)
    requires Buffers(nodes, heap, live, s) && m <= i < |nodes|
    requires AllRaw(Strip(nodes, heap), m * s, |nodes| * s)
    ensures heap[nodes[i]] == Raws(s)
  {
    hide Strip;
    forall c | 0 <= c < s ensures heap[nodes[i]][c] == Raw {
      StripAt(nodes, heap, live, s, i, c);
      MulMonotone(s, m, i);
      Rows(s, i, |nodes|);
    }
  }

  lemma DeadBuffer<T>(nodes: seq<nat>, heap: seq<seq<Cell<T>>>, live: set<nat>, s: nat, m: nat, i: nat)
    requires Buffers(nodes, heap, live, s) && m <= i < |nodes|
    requires AllRaw(Strip(nodes, heap), m * s, |nodes| * s)
    ensures nodes[i] in live - Members(nodes[m..i]) && nodes[i] < |heap| && heap[nodes[i]] == Raws(s)
  {
    hide Strip;
    RawBuffer(nodes, heap, live, s, m, i);
    NotYet(nodes, m, i);
  }

  /** The members of a list of buffers by its ends. */
  lemma MembersEnds(nodes: seq<nat>)
    requires nodes != [] && Distinct(nodes)
    ensures Members(nodes[..1]) == {nodes[0]}
    ensures var n := |nodes| - 1;
      n > 0 ==> Members(nodes) - Members(nodes[1..n]) - {nodes[n]} == {nodes[0]}
  {
    var n := |nodes| - 1;
    if n > 0 {
      forall a | a in nodes ensures a == nodes[0] || a == nodes[n] || a in nodes[1..n] {
        var i :| 0 <= i < |nodes| && nodes[i] == a;
        if 0 < i < n { assert nodes[1..n][i - 1] == a; }
      }
    }
  }

  lemma OverwriteAll<T>(u: seq<Cell<T>>, c: nat, d: nat)
    requires c <= d <= |u|
    requires AllRaw(u, 0, c) && AllRaw(u, d, |u|)
    ensures Overwrite(u, c, Raws(d - c)) == Raws(|u|)
  {
  }

  lemma MembersNone(nodes: seq<nat>)
    requires nodes == []
    ensures Members(nodes) == {}
  {
  }

  lemma NoCopies<T>(x: T)
    ensures Copies(0, x) == []
  {
  }

  lemma AllRawLayout<T>(n: nat)
    ensures Raws<T>(n) == Layout(0, [], n)
  {
  }
}
