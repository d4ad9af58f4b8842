/** Operations that read ropes or cut pieces out of them: substring, fetch, flatten, apply_to_pieces, find. */
module RopeOps {
  import opened Options
  import opened RopeTree

  const LAZY_THRESHOLD := 128

  // ---------- substring ----------

  /** Characters start, ..., endp1 - 1 of s, as far as they exist. */
  function Slice<T>(s: seq<T>, start: nat, endp1: nat): seq<T> {
    var hi := Min(endp1, |s|);
    if start < hi then s[start..hi] else []
  }

  lemma SliceLeft<T>(a: seq<T>, b: seq<T>, start: nat, endp1: nat)
    requires endp1 <= |a|
    ensures Slice(a + b, start, endp1) == Slice(a, start, endp1)
  {
  }

  lemma SliceRight<T>(a: seq<T>, b: seq<T>, start: nat, endp1: nat)
    requires |a| <= start && |a| <= endp1
    ensures Slice(a + b, start, endp1) == Slice(b, start - |a|, endp1 - |a|)
  {
  }

  lemma SliceAcross<T>(a: seq<T>, b: seq<T>, start: nat, endp1: nat)
    requires start < |a| < endp1
    ensures Slice(a + b, start, endp1) == Slice(a, start, |a|) + Slice(b, 0, endp1 - |a|)
    ensures 0 < |Slice(a + b, start, endp1)| <= |a| + |b|
  {
  }

  lemma SliceOfSlice<T>(s: seq<T>, start: nat, len: nat, lo: nat, hi: nat)
    requires start + len <= |s| && lo < hi <= len
    ensures Slice(s[start..start + len], lo, hi) == s[lo + start..hi + start]
  {
    var t := s[start..start + len];
    assert forall k :: 0 <= k < hi - lo ==> t[lo..hi][k] == s[lo + start..hi + start][k];
  }

  lemma SliceClamp<T>(s: seq<T>, start: nat, endp1: nat)
    ensures Slice(s, start, Min(endp1, |s|)) == Slice(s, start, endp1)
    ensures start >= Min(endp1, |s|) ==> Slice(s, start, endp1) == []
    ensures start < Min(endp1, |s|) ==> |Slice(s, start, endp1)| == Min(endp1, |s|) - start
    ensures endp1 >= |s| && start == 0 ==> Slice(s, start, endp1) == s
  {
  }

  function SliceLength(size: nat, start: nat, endp1: nat): nat { Max(Min(endp1, size) - start, 0) }

  /** The two ways of cutting a rope that is not a concatenation: a lazy window, or a copied leaf. */
  function CutFlat(base: Rep, start: nat, endp1: nat): (res: Rep)
    requires Shaped(base) && !base.Join? && start < endp1 <= Size(base)
    ensures Valid(res) && Size(res) == endp1 - start
  {
    SizeIsLength(base);
    if endp1 - start > LAZY_THRESHOLD then
      // Windows are never stacked: a window on a window refers to the latter's base.
      if base.Window? then Window(base.base, start + base.start, endp1 - start)
      else Window(base, start, endp1 - start)
    else
      Leaf(Content(base)[start..endp1])
  }

  /** _S_substring on a rope that is not null. */
  function Substring(base: Rep, start: nat, endp1: nat): (res: Option<Rep>)
    requires Valid(base) && Size(base) <= MAX_SIZE
    ensures ValidOpt(res) && SizeOpt(res) == SliceLength(Size(base), start, endp1)
  {
    if endp1 >= Size(base) && start == 0 then Some(base) else
    var adj := if endp1 >= Size(base) then Size(base) else endp1;
    if base.Join? then
      // The original passes the clamped end to the right child only.
      if adj <= Size(base.left) then
        Substring(base.left, start, endp1)
      else if start >= Size(base.left) then
        Substring(base.right, start - Size(base.left), adj - Size(base.left))
      else
        ConcatOpt(Substring(base.left, start, Size(base.left)), Substring(base.right, 0, endp1 - Size(base.left)))
    else if start >= adj then None
    else Some(CutFlat(base, start, adj))
  }

  lemma CutFlatContent(base: Rep, start: nat, endp1: nat)
    requires Shaped(base) && !base.Join? && start < endp1 <= Size(base)
    ensures Content(CutFlat(base, start, endp1)) == Slice(Content(base), start, endp1)
  {
    hide Content, Size, Shaped;
    SizeIsLength(base);
    if endp1 - start <= LAZY_THRESHOLD {
      LeafText(Content(base)[start..endp1]);
    } else if base.Window? {
      WindowOnWindow(base, start, endp1);
    } else {
      WindowText(base, start, endp1 - start);
    }
  }

  lemma LeafText(s: seq<char>)
    ensures Content(Leaf(s)) == s
  {
  }

  lemma WindowText(base: Rep, start: nat, len: nat)
    requires start + len <= |Content(base)|
    ensures Content(Window(base, start, len)) == Content(base)[start..start + len]
  {
  }

  lemma WindowOnWindow(w: Rep, start: nat, endp1: nat)
    requires Shaped(w) && w.Window? && start < endp1 <= Size(w)
    ensures |Content(w)| == Size(w)
    ensures Content(Window(w.base, start + w.start, endp1 - start)) == Content(w)[start..endp1]
  {
    SizeIsLength(w);
    SizeIsLength(w.base);
    WindowText(w.base, w.start, w.len);
    WindowText(w.base, start + w.start, endp1 - start);
    hide Content;
    SliceOfSlice(Content(w.base), w.start, w.len, start, endp1);
  }

  /** A substring has the characters asked for, as far as they exist. */
  lemma {:induction false} SubstringContent(base: Rep, start: nat, endp1: nat)
    requires Valid(base) && Size(base) <= MAX_SIZE
    ensures Chars(Substring(base, start, endp1)) == Slice(Content(base), start, endp1)
    decreases base, 1
  {
    SizeIsLength(base);
    SliceClamp(Content(base), start, endp1);
    hide Slice;
    if endp1 < Size(base) || start != 0 {
      var adj := Min(endp1, Size(base));
      if base.Join? {
        JoinValid(base);
        SizeIsLength(base.left);
        SizeIsLength(base.right);
        if adj <= Size(base.left) {
          LeftContent(base, start, endp1);
        } else if Size(base.left) <= start {
          RightContent(base, start, adj, endp1);
        } else {
          AcrossContent(base, start, endp1);
        }
      } else if start < adj {
        CutFlatContent(base, start, adj);
      }
    }
  }

  lemma JoinText(r: Rep)
    requires Valid(r) && r.Join?
    ensures Valid(r.left) && Valid(r.right) && Size(r) == Size(r.left) + Size(r.right)
    ensures Content(r) == Content(r.left) + Content(r.right)
    ensures |Content(r.left)| == Size(r.left) && |Content(r.right)| == Size(r.right)
  {
    SizeIsLength(r.left);
    SizeIsLength(r.right);
  }

  lemma LeftContent(base: Rep, start: nat, endp1: nat)
    requires Valid(base) && Size(base) <= MAX_SIZE && base.Join? && endp1 <= Size(base.left)
    ensures Chars(Substring(base, start, endp1)) == Slice(Content(base), start, endp1)
    decreases base, 0
  {
    hide Slice, Content, Shaped, Depth, ConcatOpt, Substring, Chars, Size;
    JoinText(base);
    GoLeft(base, start, endp1);
    SliceLeft(Content(base.left), Content(base.right), start, endp1);
    SubstringContent(base.left, start, endp1);
  }

  lemma GoLeft(base: Rep, start: nat, endp1: nat)
    requires Valid(base) && Size(base) <= MAX_SIZE && base.Join? && endp1 <= Size(base.left)
    ensures Valid(base.left) && Size(base.left) <= MAX_SIZE
    ensures Substring(base, start, endp1) == Substring(base.left, start, endp1)
  {
    hide Fib, Content, Concat, ConcatOpt;
    SizePositive(base.right);
  }

  lemma RightContent(base: Rep, start: nat, adj: nat, endp1: nat)
    requires Valid(base) && Size(base) <= MAX_SIZE && base.Join? && adj == Min(endp1, Size(base))
    requires Size(base.left) <= start && Size(base.left) < adj
    ensures Chars(Substring(base, start, endp1)) == Slice(Content(base), start, adj)
    decreases base, 0
  {
    hide Slice, Content, Shaped, Depth, ConcatOpt, Substring, Chars, Size;
    JoinText(base);
    GoRight(base, start, adj, endp1);
    SliceRight(Content(base.left), Content(base.right), start, adj);
    SubstringContent(base.right, start - Size(base.left), adj - Size(base.left));
  }

  lemma GoRight(base: Rep, start: nat, adj: nat, endp1: nat)
    requires Valid(base) && Size(base) <= MAX_SIZE && base.Join? && adj == Min(endp1, Size(base))
    requires Size(base.left) <= start && Size(base.left) < adj
    ensures Valid(base.right) && Size(base.right) <= MAX_SIZE
    ensures Substring(base, start, endp1) == Substring(base.right, start - Size(base.left), adj - Size(base.left))
  {
    hide Fib, Content, Concat, ConcatOpt;
    SizePositive(base.left);
  }

  lemma AcrossContent(base: Rep, start: nat, endp1: nat)
    requires Valid(base) && Size(base) <= MAX_SIZE && base.Join?
    requires (endp1 < Size(base) || start != 0) && start < Size(base.left) < endp1
    ensures Chars(Substring(base, start, endp1)) == Slice(Content(base), start, endp1)
    decreases base, 0
  {
    hide Slice, Content, Shaped, Depth, ConcatOpt, Substring, Chars, Size;
    JoinText(base);
    GoAcross(base, start, endp1);
    SliceAcross(Content(base.left), Content(base.right), start, endp1);
    SubstringContent(base.left, start, Size(base.left));
    SubstringContent(base.right, 0, endp1 - Size(base.left));
  }

  lemma GoAcross(base: Rep, start: nat, endp1: nat)
    requires Valid(base) && Size(base) <= MAX_SIZE && base.Join?
    requires (endp1 < Size(base) || start != 0) && start < Size(base.left) < endp1
    ensures Valid(base.left) && Valid(base.right) && Size(base.left) + Size(base.right) <= MAX_SIZE
    ensures JoinableOpt(Substring(base.left, start, Size(base.left)), Substring(base.right, 0, endp1 - Size(base.left)))
    ensures Substring(base, start, endp1)
         == ConcatOpt(Substring(base.left, start, Size(base.left)), Substring(base.right, 0, endp1 - Size(base.left)))
  {
    hide Fib, Content, Concat, ConcatOpt;
    SizePositive(base.right);
  }

  lemma SizePositive(r: Rep)
    requires Shaped(r)
    ensures Size(r) > 0
  {
    SizeIsLength(r);
  }

  lemma JoinValid(r: Rep)
    requires Valid(r) && r.Join?
    ensures Valid(r.left) && Valid(r.right) && Size(r) == Size(r.left) + Size(r.right)
  {
  }

  /** The result is null exactly when it would be empty. */
  lemma SubstringNull(base: Rep, start: nat, endp1: nat)
    requires Valid(base) && Size(base) <= MAX_SIZE
    ensures Substring(base, start, endp1).None? <==> Min(endp1, Size(base)) <= start
  {
    var res := Substring(base, start, endp1);
    if res.Some? { SizeIsLength(res.value); }
  }

  /** _S_substring */
  function SubstringOpt(base: Option<Rep>, start: nat, endp1: nat): (res: Option<Rep>)
    requires ValidOpt(base) && SizeOpt(base) <= MAX_SIZE
    ensures ValidOpt(res) && SizeOpt(res) == SliceLength(SizeOpt(base), start, endp1)
  {
    if base.None? then None else Substring(base.value, start, endp1)
  }

  lemma SubstringOptContent(base: Option<Rep>, start: nat, endp1: nat)
    requires ValidOpt(base) && SizeOpt(base) <= MAX_SIZE
    ensures Chars(SubstringOpt(base, start, endp1)) == Slice(Chars(base), start, endp1)
    ensures start <= endp1 <= |Chars(base)| ==> Slice(Chars(base), start, endp1) == Chars(base)[start..endp1]
  {
    if base.Some? { SubstringContent(base.value, start, endp1); }
  }

  // ---------- append ----------

  /** A rope made of a character array. */
  function Text(s: seq<char>): (res: Option<Rep>)
    ensures ValidOpt(res) && Chars(res) == s && SizeOpt(res) == |s|
  {
    if s == [] then None else Some(Leaf(s))
  }

  /** _S_destr_concat_char_iter on a rope that nobody else holds. */
  function AppendText(r: Option<Rep>, s: seq<char>): (res: Option<Rep>)
    requires JoinableOpt(r, Text(s))
    ensures ValidOpt(res) && SizeOpt(res) == SizeOpt(r) + |s|
  {
    if r.None? then Text(s) else Some(AppendToRep(r.value, s))
  }

  function AppendToRep(r: Rep, s: seq<char>): (res: Rep)
    requires Valid(r) && Size(r) + |s| <= MAX_SIZE
    ensures Valid(res) && Size(res) == Size(r) + |s|
  {
    if s == [] then r
    else if r.Leaf? && |r.data| + |s| <= COPY_MAX then Leaf(r.data + s)
    else if r.Join? && r.right.Leaf? && |r.right.data| + |s| <= COPY_MAX then GrowRight(r, s)
    else TreeConcat(r, Leaf(s))
  }

  /** The flag stays as it is: the tree has become longer, not deeper. */
  function GrowRight(r: Rep, s: seq<char>): (res: Rep)
    requires Valid(r) && r.Join? && r.right.Leaf?
    ensures Valid(res) && Size(res) == Size(r) + |s|
  {
    GrowRightValid(r, s);
    Join(r.left, Leaf(r.right.data + s), r.balanced)
  }

  lemma GrowRightValid(r: Rep, s: seq<char>)
    requires Valid(r) && r.Join? && r.right.Leaf?
    ensures var res := Join(r.left, Leaf(r.right.data + s), r.balanced); Valid(res) && Size(res) == Size(r) + |s|
  {
    hide Fib, Content;
    var leaf := Leaf(r.right.data + s);
    var res := Join(r.left, leaf, r.balanced);
    assert Shaped(r.left) && Shaped(r.right) && (r.balanced ==> IsBalanced(r));
    JoinMeasures(r.left, r.right, r.balanced);
    JoinMeasures(r.left, leaf, r.balanced);
    assert r == Join(r.left, r.right, r.balanced) && Depth(res) == Depth(r);
    assert r.balanced ==> IsBalanced(res);
    assert Shaped(res);
  }

  lemma JoinMeasures(l: Rep, leaf: Rep, balanced: bool)
    requires leaf.Leaf?
    ensures Depth(leaf) == 0 && Size(leaf) == |leaf.data|
    ensures Depth(Join(l, leaf, balanced)) == Max(Depth(l), 0) + 1 && Size(Join(l, leaf, balanced)) == Size(l) + |leaf.data|
  {
  }

  lemma AppendTextContent(r: Option<Rep>, s: seq<char>)
    requires JoinableOpt(r, Text(s))
    ensures Chars(AppendText(r, s)) == Chars(r) + s
  {
    if r.Some? {
      var t := r.value;
      if t.Join? && t.right.Leaf? { Regroup(Content(t.left), t.right.data, s); }
      assert Content(AppendToRep(t, s)) == Content(t) + s;
    }
  }

  /** The static member replace of stl_rope.h. */
  function Replace(whole: Option<Rep>, pos1: nat, pos2: nat, r: Option<Rep>): (res: Option<Rep>)
    requires ValidOpt(whole) && ValidOpt(r) && pos1 <= pos2 && SizeOpt(whole) + SizeOpt(r) <= MAX_SIZE
    ensures ValidOpt(res) && SizeOpt(res) <= SizeOpt(whole) + SizeOpt(r)
  {
    if whole.None? then r else
    var left := SubstringOpt(whole, 0, pos1);
    var right := SubstringOpt(whole, pos2, Size(whole.value));
    if r.None? then ConcatOpt(left, right) else ConcatOpt(ConcatOpt(left, r), right)
  }

  /** Its steps on a rope that is not null. */
  lemma ReplaceSteps(whole: Rep, pos1: nat, pos2: nat, r: Option<Rep>)
    requires Valid(whole) && ValidOpt(r) && pos1 <= pos2 && Size(whole) + SizeOpt(r) <= MAX_SIZE
    ensures var left, right := Substring(whole, 0, pos1), Substring(whole, pos2, Size(whole));
      && JoinableOpt(left, right) && JoinableOpt(left, r) && JoinableOpt(ConcatOpt(left, r), right)
      && Replace(Some(whole), pos1, pos2, r) == ConcatOpt(ConcatOpt(left, r), right)
  {
    hide Substring, Valid, Size, Content;
  }

  lemma ReplaceContent(whole: Option<Rep>, pos1: nat, pos2: nat, r: Option<Rep>)
    requires ValidOpt(whole) && ValidOpt(r) && pos1 <= pos2 && SizeOpt(whole) + SizeOpt(r) <= MAX_SIZE
    ensures Chars(Replace(whole, pos1, pos2, r))
         == Slice(Chars(whole), 0, pos1) + Chars(r) + Slice(Chars(whole), pos2, |Chars(whole)|)
  {
    if whole.Some? {
      SizeIsLength(whole.value);
      SubstringContent(whole.value, 0, pos1);
      SubstringContent(whole.value, pos2, Size(whole.value));
      hide Slice, Content, Substring;
    }
  }

  /** Up to n characters of s from position p on, as far as they exist, give way to t. */
  function Splice<T>(s: seq<T>, p: nat, n: nat, t: seq<T>): seq<T> { s[..Min(p, |s|)] + t + s[Min(p + n, |s|)..] }

  lemma SliceEnds<T>(s: seq<T>, p: nat, q: nat)
    ensures Slice(s, 0, p) == s[..Min(p, |s|)] && Slice(s, q, |s|) == s[Min(q, |s|)..]
  {
  }

  /** Taking p + 1 elements out at p takes out one just when p is the first place, or no more than one is left there. */
  lemma EraseAtIsOne<T>(s: seq<T>, p: nat)
    ensures Splice(s, p, p + 1, []) == Splice(s, p, 1, []) <==> p == 0 || |s| <= p + 1
  {
    var more, one := Splice(s, p, p + 1, []), Splice(s, p, 1, []);
    if p > 0 && p + 1 < |s| {
      assert |more| < |one|;
    }
  }

  /** insert(p, r), replace(p, n, r) and erase(p, n), in terms of the characters alone. */
  lemma ReplaceIsSplice(whole: Option<Rep>, p: nat, n: nat, r: Option<Rep>)
    requires ValidOpt(whole) && ValidOpt(r) && SizeOpt(whole) + SizeOpt(r) <= MAX_SIZE
    ensures Chars(Replace(whole, p, p + n, r)) == Splice(Chars(whole), p, n, Chars(r))
  {
    hide Replace, Slice, Content, Shaped, Depth;
    ReplaceContent(whole, p, p + n, r);
    SliceEnds(Chars(whole), p, p + n);
  }

  // ---------- single characters ----------

  /** _S_fetch, without the flattened copy of the root. */
  method Fetch(r: Rep, i: nat) returns (c: char)
    requires Shaped(r) && i < Size(r)
    ensures i < |Content(r)| && c == Content(r)[i]
  {
    var x, k := r, i;
    SizeIsLength(r);
    while x.Join?
      invariant Shaped(x) && 0 <= k < Size(x) && Size(x) == |Content(x)| && Content(x)[k] == Content(r)[i]
      decreases Depth(x)
    {
      SizeIsLength(x.left);
      SizeIsLength(x.right);
      if k >= Size(x.left) {
        k, x := k - Size(x.left), x.right;
      } else {
        x := x.left;
      }
    }
    c := match x case Leaf(data) => data[k] case _ => Content(x)[k];
  }

  // ---------- traversal by pieces ----------

  datatype Progress<S> = Progress(state: S, more: bool)

  type Consumer<!S> = (S, seq<char>) -> Progress<S>

  predicate IgnoresCut<S(==)>(c: Consumer<S>, s: S, a: seq<char>, b: seq<char>) {
    c(s, a + b) == if c(s, a).more then c(c(s, a).state, b) else c(s, a)
  }

  predicate IgnoresEmpty<S(==)>(c: Consumer<S>, s: S) { c(s, []) == Progress(s, true) }

  /** A consumer for which it does not matter how the text is cut into pieces. */
  ghost predicate Lawful<S(!new)>(c: Consumer<S>) {
    (forall s :: IgnoresEmpty(c, s)) && (forall s, a, b :: IgnoresCut(c, s, a, b))
  }

  /** _S_apply_to_pieces on a rope that is not null. */
  function ApplyToPieces<S>(c: Consumer<S>, s: S, r: Rep, begin: nat, end: nat): Progress<S>
    requires Shaped(r) && begin <= end <= Size(r)
  {
    SizeIsLength(r);
    if r.Join? then
      var leftLen := Size(r.left);
      var first := if begin < leftLen then ApplyToPieces(c, s, r.left, begin, Min(leftLen, end)) else Progress(s, true);
      if !first.more then first
      else if end > leftLen then
        ApplyToPieces(c, first.state, r.right, Max(leftLen, begin) - leftLen, end - leftLen)
      else first
    else
      c(s, Content(r)[begin..end])
  }

  lemma ApplyToJoin<S(!new)>(c: Consumer<S>, s: S, r: Rep, begin: nat, end: nat)
    requires Shaped(r) && r.Join? && begin <= end <= Size(r) && Lawful(c)
    ensures Shaped(r.left) && Shaped(r.right) && Content(r) == Content(r.left) + Content(r.right)
    ensures |Content(r.left)| == Size(r.left) && |Content(r.right)| == Size(r.right) == Size(r) - Size(r.left)
    ensures var n := Size(r.left);
      if begin < n && end <= n then ApplyToPieces(c, s, r, begin, end) == ApplyToPieces(c, s, r.left, begin, end)
      else if n <= begin && n < end then
        ApplyToPieces(c, s, r, begin, end) == ApplyToPieces(c, s, r.right, begin - n, end - n)
      else if n <= begin then ApplyToPieces(c, s, r, begin, end) == Progress(s, true)
      else
        var first := ApplyToPieces(c, s, r.left, begin, n);
        ApplyToPieces(c, s, r, begin, end)
          == if first.more then ApplyToPieces(c, first.state, r.right, 0, end - n) else first
  {
    hide Content, Lawful, Shaped, Size;
    JoinParts(r);
    var n := Size(r.left);
    if begin < n < end {
      assert ApplyToPieces(c, s, r, begin, end)
          == (var first := ApplyToPieces(c, s, r.left, begin, n);
              if first.more then ApplyToPieces(c, first.state, r.right, 0, end - n) else first);
    }
  }

  lemma JoinParts(r: Rep)
    requires Shaped(r) && r.Join?
    ensures Shaped(r.left) && Shaped(r.right) && Content(r) == Content(r.left) + Content(r.right)
    ensures |Content(r.left)| == Size(r.left) && |Content(r.right)| == Size(r.right) == Size(r) - Size(r.left)
  {
    SizeIsLength(r.left);
    SizeIsLength(r.right);
  }

  /** Applying a consumer piece by piece is applying it to the text. */
  lemma {:induction false} ApplyIsWhole<S(!new)>(c: Consumer<S>, s: S, r: Rep, begin: nat, end: nat)
    requires Shaped(r) && begin <= end <= Size(r) && Lawful(c)
    ensures |Content(r)| == Size(r) && ApplyToPieces(c, s, r, begin, end) == c(s, Content(r)[begin..end])
    decreases r, 1
  {
    SizeIsLength(r);
    if r.Join? {
      hide Content, Shaped, Size, ApplyToPieces;
      ApplyToJoin(c, s, r, begin, end);
      var leftLen := Size(r.left);
      if end <= leftLen && begin < leftLen {
        ApplyIsWhole(c, s, r.left, begin, end);
        assert Content(r)[begin..end] == Content(r.left)[begin..end];
      } else if leftLen <= begin {
        RightPiece(Content(r.left), Content(r.right), begin, end);
        var nothing := IgnoresEmpty(c, s);
        assert nothing;
        if leftLen < end { ApplyIsWhole(c, s, r.right, begin - leftLen, end - leftLen); }
      } else {
        ApplyAcross(c, s, r, begin, end);
      }
    }
  }

  lemma ApplyAcross<S(!new)>(c: Consumer<S>, s: S, r: Rep, begin: nat, end: nat)
    requires Shaped(r) && r.Join? && begin < Size(r.left) < end <= Size(r) && |Content(r)| == Size(r) && Lawful(c)
    ensures ApplyToPieces(c, s, r, begin, end) == c(s, Content(r)[begin..end])
    decreases r, 0
  {
    hide Content, Shaped, Size, ApplyToPieces;
    ApplyToJoin(c, s, r, begin, end);
    var leftLen := Size(r.left);
    var x, y := Content(r.left)[begin..leftLen], Content(r.right)[0..end - leftLen];
    assert Content(r)[begin..end] == x + y;
    ApplyIsWhole(c, s, r.left, begin, leftLen);
    var cut := IgnoresCut(c, s, x, y);
    assert cut;
    if c(s, x).more { ApplyIsWhole(c, c(s, x).state, r.right, 0, end - leftLen); }
  }

  lemma RightPiece<T>(a: seq<T>, b: seq<T>, begin: nat, end: nat)
    requires |a| <= begin <= end <= |a| + |b|
    ensures (a + b)[begin..end] == b[begin - |a|..end - |a|]
  {
  }

  /** The consumer of _S_flatten(r, start, len, buffer); its state is what the buffer holds. */
  function FlattenInto(buffer: seq<char>, piece: seq<char>): Progress<seq<char>> { Progress(buffer + piece, true) }

  lemma FlattenIsLawful()
    ensures Lawful(FlattenInto)
  {
    forall s: seq<char> ensures IgnoresEmpty(FlattenInto, s) { assert s + [] == s; }
    forall s: seq<char>, a: seq<char>, b: seq<char> ensures IgnoresCut(FlattenInto, s, a, b) { Regroup(s, a, b); }
  }

  lemma FlattenRange(r: Rep, start: nat, len: nat)
    requires Shaped(r) && start + len <= Size(r)
    ensures |Content(r)| == Size(r)
    ensures ApplyToPieces(FlattenInto, [], r, start, start + len).state == Content(r)[start..start + len]
  {
    hide Lawful, ApplyToPieces, Content, Size, Shaped;
    FlattenIsLawful();
    SizeIsLength(r);
    ApplyIsWhole(FlattenInto, [], r, start, start + len);
  }

  /** _S_flatten(r, buffer): writes the text at position at, and returns the position behind it. */
  method Flatten(r: Rep, buffer: array<char>, at: nat) returns (rest: nat)
    requires Shaped(r) && at + Size(r) <= buffer.Length
    modifies buffer
    ensures rest == at + Size(r)
    ensures buffer[..] == old(buffer[..at]) + Content(r) + old(buffer[rest..])
    decreases Depth(r)
  {
    SizeIsLength(r);
    if r.Join? {
      var mid := Flatten(r.left, buffer, at);
      SizeIsLength(r.left);
      assert buffer[..mid] == old(buffer[..at]) + Content(r.left);
      assert buffer[mid..] == old(buffer[mid..]);
      rest := Flatten(r.right, buffer, mid);
      Regroup(old(buffer[..at]), Content(r.left), Content(r.right));
    } else {
      rest := at + Size(r);
      forall i | at <= i < rest { buffer[i] := Content(r)[i - at]; }
    }
  }

  // ---------- searching ----------

  /** The first position of pattern in s, or |s|. */
  function FirstIndex(pattern: char, s: seq<char>): (n: nat)
    ensures n <= |s| && (n < |s| ==> s[n] == pattern) && pattern !in s[..n]
  {
    if s == [] || s[0] == pattern then 0 else
    var n := 1 + FirstIndex(pattern, s[1..]);
    assert s[..n] == [s[0]] + s[1..][..n - 1];
    n
  }

  /** _Rope_find_char_char_consumer; the state counts the characters before the match. */
  function FindConsumer(pattern: char): Consumer<nat> {
    (count: nat, piece: seq<char>) =>
      var n := FirstIndex(pattern, piece); Progress(count + n, n == |piece|)
  }

  lemma FindIsLawful(pattern: char)
    ensures Lawful(FindConsumer(pattern))
  {
    var c := FindConsumer(pattern);
    forall s: nat ensures IgnoresEmpty(c, s) {}
    forall s: nat, a: seq<char>, b: seq<char> ensures IgnoresCut(c, s, a, b) {
      FindIgnoresCut(pattern, s, a, b);
    }
  }

  lemma FindIgnoresCut(pattern: char, s: nat, a: seq<char>, b: seq<char>)
    ensures IgnoresCut(FindConsumer(pattern), s, a, b)
  {
    hide FirstIndex;
    FirstIndexAppend(pattern, a, b);
  }

  lemma FirstIndexAppend(pattern: char, a: seq<char>, b: seq<char>)
    ensures FirstIndex(pattern, a + b) ==
      if FirstIndex(pattern, a) < |a| then FirstIndex(pattern, a) else |a| + FirstIndex(pattern, b)
  {
    var m, k := FirstIndex(pattern, a), FirstIndex(pattern, b);
    var n := if m < |a| then m else |a| + k;
    forall i | 0 <= i < n ensures (a + b)[i] != pattern {
      if i < |a| { assert a[..m][i] == a[i]; } else { assert b[..k][i - |a|] == b[i - |a|]; }
    }
    var f := FirstIndex(pattern, a + b);
    forall i | 0 <= i < f ensures (a + b)[i] != pattern { assert (a + b)[..f][i] == (a + b)[i]; }
    FirstIndexUnique(pattern, a + b, f, n);
  }

  lemma FirstIndexUnique(pattern: char, s: seq<char>, m: nat, n: nat)
    requires m <= |s| && (m < |s| ==> s[m] == pattern) && forall i :: 0 <= i < m ==> s[i] != pattern
    requires n <= |s| && (n < |s| ==> s[n] == pattern) && forall i :: 0 <= i < n ==> s[i] != pattern
    ensures m == n
  {
  }

  /** rope::find; None is npos. */
  function Find(r: Option<Rep>, pattern: char, start: nat): Option<nat>
    requires ValidOpt(r) && start <= SizeOpt(r)
  {
    var count := if r.None? then 0
                 else ApplyToPieces(FindConsumer(pattern), 0, r.value, start, Size(r.value)).state;
    if start + count == SizeOpt(r) then None else Some(start + count)
  }

  lemma FindIsFirst(r: Option<Rep>, pattern: char, start: nat)
    requires ValidOpt(r) && start <= SizeOpt(r)
    ensures |Chars(r)| == SizeOpt(r)
    ensures match Find(r, pattern, start)
      case None => pattern !in Chars(r)[start..]
      case Some(i) => start <= i < |Chars(r)| && Chars(r)[i] == pattern && pattern !in Chars(r)[start..i]
  {
    hide Lawful, ApplyToPieces, Content, Size, Shaped;
    if r.Some? {
      SizeIsLength(r.value);
      FindIsLawful(pattern);
      ApplyIsWhole(FindConsumer(pattern), 0, r.value, start, Size(r.value));
      var n := FirstIndex(pattern, Content(r.value)[start..]);
      assert Content(r.value)[start..Size(r.value)] == Content(r.value)[start..];
      assert Content(r.value)[start..][..n] == Content(r.value)[start..start + n];
    }
  }
}
