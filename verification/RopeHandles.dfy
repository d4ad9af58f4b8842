/** Rope variables. Many of them share nodes, some operations overwrite nodes in place; each operation changes the
    text of the variable it is applied to, and of no other. */
module RopeHandles {
  import opened Options
  import opened RopeTree
  import opened RopeMemory
  import opened RopeInPlace
  import opened RopeHeap
  import Ops = RopeOps

  predicate AllValid(ts: seq<Option<Rep>>) {
    forall i :: 0 <= i < |ts| ==> ValidOpt(ts[i]) && SizeOpt(ts[i]) <= MAX_SIZE
  }

  function TextsOf(ts: seq<Option<Rep>>): seq<seq<char>> { seq(|ts|, i requires 0 <= i < |ts| => Chars(ts[i])) }

  lemma TextsUpdate(ts: seq<Option<Rep>>, h: nat, t: Option<Rep>)
    requires h < |ts| && AllValid(ts) && ValidOpt(t) && SizeOpt(t) <= MAX_SIZE
    ensures AllValid(ts[h := t]) && TextsOf(ts[h := t]) == TextsOf(ts)[h := Chars(t)]
  {
  }

  lemma TextsAppend(ts: seq<Option<Rep>>, t: Option<Rep>)
    requires AllValid(ts) && ValidOpt(t) && SizeOpt(t) <= MAX_SIZE
    ensures AllValid(ts + [t]) && TextsOf(ts + [t]) == TextsOf(ts) + [Chars(t)]
  {
  }

  lemma TextLength(ts: seq<Option<Rep>>, h: nat)
    requires h < |ts| && AllValid(ts)
    ensures |TextsOf(ts)| == |ts| && TextsOf(ts)[h] == Chars(ts[h]) && |Chars(ts[h])| == SizeOpt(ts[h])
  {
    if ts[h].Some? { SizeIsLength(ts[h].value); }
  }

  // ---------- the references held by the variables ----------

  lemma RefsAppend(f: seq<Option<Addr>>, o: Option<Addr>)
    ensures ForestRefs(f + [o]) == ForestRefs(f) + OptRefs(o)
  {
    assert (f + [o])[..|f|] == f;
  }

  lemma TreesAppend(mem: Memory, f: seq<Option<Addr>>, o: Option<Addr>)
    ensures Trees(mem, f + [o]) == Trees(mem, f) + [TreeOpt(mem, o)]
  {
  }

  lemma Reassign<T>(f: multiset<T>, rest: multiset<T>, o: multiset<T>, x: multiset<T>)
    requires f == rest + o
    ensures o <= f + x && f + x - o == rest + x
  {
  }

  lemma IsolatedForest(mem: Memory, owned: multiset<Addr>, mem': Memory, f: seq<Option<Addr>>)
    requires Inv(mem, owned) && ForestRefs(f) <= owned && Isolated(mem, ForestRefs(f), mem')
    ensures Trees(mem', f) == Trees(mem, f)
  {
    hide WellFormed, Counted, Tree, ForestRefs;
    forall i | 0 <= i < |f| ensures TreeOpt(mem', f[i]) == TreeOpt(mem, f[i]) {
      if f[i].Some? {
        ForestRefsTake(f, i);
        assert f[i].value in ForestRefs(f);
      }
    }
  }

  class Ropes {
    const store: NodeStore
    /** The pointers _M_tree_ptr. */
    var handles: seq<Option<Addr>>

    ghost predicate Valid()
      reads this, store
    {
      store.Good() && store.owned == ForestRefs(handles) && AllValid(Trees(store.mem, handles))
    }

    ghost function Texts(): (ts: seq<seq<char>>)
      reads this, store
      ensures |ts| == |handles|
    {
      TextsOf(Trees(store.mem, handles))
    }

    constructor ()
      ensures Valid() && fresh(store) && Texts() == []
    {
      store := new NodeStore();
      handles := [];
    }

    // ---------- storing a result in a variable ----------

    lemma HandleLive(h: nat)
      requires Valid() && h < |handles|
      ensures store.LiveOpt(handles[h]) && OptRefs(handles[h]) <= store.owned
      ensures ValidOpt(TreeOpt(store.mem, handles[h])) && SizeOpt(TreeOpt(store.mem, handles[h])) <= MAX_SIZE
      ensures |Texts()[h]| == SizeOpt(TreeOpt(store.mem, handles[h])) && Texts()[h] == Chars(TreeOpt(store.mem, handles[h]))
    {
      ForestOwned(store.mem, store.owned, handles);
      ForestRefsTake(handles, h);
      TreesAt(store.mem, handles, h);
      TextLength(Trees(store.mem, handles), h);
    }

    /** _S_unref of the old tree, and the assignment to _M_tree_ptr. */
    method Install(h: nat, res: Option<Addr>)
      requires h < |handles| && store.Good() && store.owned == ForestRefs(handles) + OptRefs(res)
      requires store.LiveOpt(res)
      modifies this, store
      ensures store.Good() && store.owned == ForestRefs(handles) && handles == old(handles)[h := res]
      ensures Trees(store.mem, handles) == old(Trees(store.mem, handles))[h := old(TreeOpt(store.mem, res))]
    {
      hide WellFormed, Counted, Preserves, Tree, Trees, ForestRefs, OptRefs, ForestLive;
      ghost var m0, f := store.mem, handles;
      ForestRefsTake(f, h);
      ForestRefsPut(f[h := None], h, res);
      assert f[h := None][h := res] == f[h := res];
      Reassign(ForestRefs(f), ForestRefs(f[h := None]), OptRefs(f[h]), OptRefs(res));
      ForestOwned(m0, store.owned, f);
      store.UnrefOpt(handles[h]);
      SlotEmptied(m0, f, h, store.mem, store.owned);
      TreesPut(store.mem, f[h := None], h, res);
      ResultStays(m0, store.mem, store.owned, res);
      handles := handles[h := res];
      TreesUpdateTwice(m0, f, h, TreeOpt(m0, res));
    }

    lemma ResultStays(m0: Memory, m1: Memory, owned: multiset<Addr>, res: Option<Addr>)
      requires WellFormed(m0) && Inv(m1, owned) && Preserves(m0, m1) && OptRefs(res) <= owned
      requires res.Some? ==> Live(m0, res.value)
      ensures TreeOpt(m1, res) == TreeOpt(m0, res)
    {
      hide WellFormed, Counted, Preserves, Tree;
      if res.Some? { StaysOwned(m0, m1, owned, res.value); }
    }

    lemma UpdateSame<T>(s: seq<T>, i: nat)
      requires i < |s|
      ensures s[i := s[i]] == s
    {
    }

    lemma TreesUpdateTwice(m0: Memory, f: seq<Option<Addr>>, h: nat, t: Option<Rep>)
      requires h < |f|
      ensures |Trees(m0, f)| == |f| && Trees(m0, f)[h := None][h := t] == Trees(m0, f)[h := t]
    {
    }

    /** ... after a computation that left all nodes alone. */
    method Assigned(h: nat, res: Option<Addr>, ghost m0: Memory)
      requires h < |handles| && store.Good() && store.owned == ForestRefs(handles) + OptRefs(res)
      requires store.LiveOpt(res) && WellFormed(m0) && Preserves(m0, store.mem) && ForestLive(m0, handles)
      requires AllValid(Trees(m0, handles))
      requires ValidOpt(TreeOpt(store.mem, res)) && SizeOpt(TreeOpt(store.mem, res)) <= MAX_SIZE
      modifies this, store
      ensures Valid() && handles == old(handles)[h := res] && TreeOpt(store.mem, res) == old(TreeOpt(store.mem, res))
      ensures Texts() == old(TextsOf(Trees(m0, handles)))[h := old(Chars(TreeOpt(store.mem, res)))]
    {
      hide WellFormed, Counted, Preserves, Tree, Trees, ForestRefs, OptRefs, ForestLive, RopeTree.Valid, Content, Size, AllValid, TextsOf;
      TreesPreserved(m0, store.mem, store.owned, handles);
      TreesAt(m0, handles, h);
      TextsUpdate(Trees(m0, handles), h, TreeOpt(store.mem, res));
      Install(h, res);
      TreesAt(store.mem, handles, h);
    }

    /** A new variable. */
    method Added(res: Option<Addr>, ghost m0: Memory) returns (h: nat)
      requires store.Good() && store.owned == ForestRefs(handles) + OptRefs(res)
      requires store.LiveOpt(res) && WellFormed(m0) && Preserves(m0, store.mem) && ForestLive(m0, handles)
      requires AllValid(Trees(m0, handles))
      requires ValidOpt(TreeOpt(store.mem, res)) && SizeOpt(TreeOpt(store.mem, res)) <= MAX_SIZE
      modifies this
      ensures Valid() && h == |old(handles)|
      ensures Texts() == old(TextsOf(Trees(m0, handles))) + [old(Chars(TreeOpt(store.mem, res)))]
    {
      hide WellFormed, Counted, Preserves, Tree, Trees, ForestRefs, OptRefs, ForestLive, RopeTree.Valid, Content, Size, AllValid, TextsOf;
      h := |handles|;
      TreesPreserved(m0, store.mem, store.owned, handles);
      TextsAppend(Trees(m0, handles), TreeOpt(store.mem, res));
      TreesAppend(store.mem, handles, res);
      RefsAppend(handles, res);
      handles := handles + [res];
    }

    // ---------- construction, copying, assignment ----------

    /** rope(const _CharT*, size_t) */
    method Create(s: seq<char>) returns (h: nat)
      requires Valid() && |s| <= MAX_SIZE
      modifies this, store
      ensures Valid() && h == |old(handles)| && Texts() == old(Texts()) + [s]
    {
      hide WellFormed, Counted, Preserves, Tree, Trees, ForestRefs, AllValid, TextsOf;
      ghost var m0 := store.mem;
      ForestOwned(m0, store.owned, handles);
      NoJoin(s);
      var res := store.ConcatChars(None, s);
      h := Added(res, m0);
    }

    lemma NoJoin(s: seq<char>)
      requires |s| <= MAX_SIZE
      ensures JoinableOpt(None, Ops.Text(s)) && ConcatOpt(None, Ops.Text(s)) == Ops.Text(s)
    {
    }

    /** rope(const rope&): the copy shares the tree. */
    method Copy(g: nat) returns (h: nat)
      requires Valid() && g < |handles|
      modifies this, store
      ensures Valid() && h == |old(handles)| && Texts() == old(Texts()) + [old(Texts()[g])]
    {
      HandleLive(g);
      hide WellFormed, Counted, Preserves, Tree, Trees, ForestRefs, AllValid, TextsOf, RopeTree.Valid;
      ghost var m0 := store.mem;
      ForestOwned(m0, store.owned, handles);
      var res := Share(g);
      h := Added(res, m0);
    }

    /** _S_ref */
    method Share(g: nat) returns (res: Option<Addr>)
      requires Valid() && g < |handles|
      modifies store
      ensures store.Good() && store.owned == old(store.owned) + OptRefs(res) && Preserves(old(store.mem), store.mem)
      ensures res == handles[g] && store.LiveOpt(res) && TreeOpt(store.mem, res) == old(TreeOpt(store.mem, res))
    {
      HandleLive(g);
      hide WellFormed, Counted, Preserves, Tree, Trees, ForestRefs, AllValid;
      res := handles[g];
      if res.Some? {
        res := store.RefSelf(res.value);
      } else {
        PreservesSelf(store.mem);
      }
    }

    /** operator=(const rope&) */
    method Assign(h: nat, g: nat)
      requires Valid() && g < |handles| && h < |handles|
      modifies this, store
      ensures Valid() && Texts() == old(Texts())[h := old(Texts()[g])]
    {
      HandleLive(g);
      hide WellFormed, Counted, Preserves, Tree, Trees, ForestRefs, AllValid, TextsOf, RopeTree.Valid;
      ghost var m0 := store.mem;
      ForestOwned(m0, store.owned, handles);
      var res := Share(g);
      Assigned(h, res, m0);
    }

    /** clear(), and what the destructor does. */
    method Clear(h: nat)
      requires Valid() && h < |handles|
      modifies this, store
      ensures Valid() && Texts() == old(Texts())[h := []]
    {
      hide WellFormed, Counted, Preserves, Tree, Trees, ForestRefs, AllValid, TextsOf, RopeTree.Valid;
      ForestOwned(store.mem, store.owned, handles);
      PreservesSelf(store.mem);
      Assigned(h, None, store.mem);
    }

    // ---------- append ----------

    /** append(const _CharT*, size_t) and push_back, which may overwrite nodes. */
    method Append(h: nat, s: seq<char>)
      requires Valid() && h < |handles| && |Texts()[h]| + |s| <= MAX_SIZE
      modifies this, store
      ensures Valid() && Texts() == old(Texts())[h := old(Texts()[h]) + s]
    {
      HandleLive(h);
      hide WellFormed, Counted, Preserves, Tree, Trees, ForestRefs, AllValid, TextsOf, RopeTree.Valid, Isolated, OptRefs;
      ghost var m0, own0, f := store.mem, store.owned, handles;
      Ops.AppendTextContent(TreeOpt(m0, f[h]), s);
      ForestRefsTake(f, h);
      var res := store.DestrConcatChars(handles[h], s);
      OthersUnchanged(m0, own0, store.mem, f, h, TreeOpt(store.mem, res));
      Install(h, res);
      TextsUpdate(Trees(m0, f), h, Trees(store.mem, handles)[h]);
    }

    lemma OthersUnchanged(m0: Memory, owned: multiset<Addr>, m1: Memory, f: seq<Option<Addr>>, h: nat, t: Option<Rep>)
      requires h < |f| && Inv(m0, owned) && owned == ForestRefs(f) && Isolated(m0, owned - OptRefs(f[h]), m1)
      ensures |Trees(m0, f)| == |Trees(m1, f)| == |f| && Trees(m1, f)[h := t] == Trees(m0, f)[h := t]
    {
      hide WellFormed, Counted, Tree, ForestRefs, Isolated;
      ForestRefsTake(f, h);
      assert owned - OptRefs(f[h]) == ForestRefs(f[h := None]);
      IsolatedForest(m0, owned, m1, f[h := None]);
      assert Trees(m0, f[h := None]) == Trees(m0, f)[h := None];
      assert Trees(m1, f[h := None]) == Trees(m1, f)[h := None];
      TreesUpdateTwice(m0, f, h, t);
      TreesUpdateTwice(m1, f, h, t);
    }

    /** append(const rope&) */
    method AppendRope(h: nat, g: nat)
      requires Valid() && h < |handles| && g < |handles| && |Texts()[h]| + |Texts()[g]| <= MAX_SIZE
      modifies this, store
      ensures Valid() && Texts() == old(Texts())[h := old(Texts()[h]) + old(Texts()[g])]
    {
      HandleLive(h);
      HandleLive(g);
      hide WellFormed, Counted, Preserves, Tree, Trees, ForestRefs, AllValid, TextsOf, RopeTree.Valid;
      ghost var m0 := store.mem;
      ForestOwned(m0, store.owned, handles);
      var res := store.Concat(handles[h], handles[g]);
      Assigned(h, res, m0);
    }

    /** operator+: a new variable. */
    method Plus(h: nat, g: nat) returns (k: nat)
      requires Valid() && h < |handles| && g < |handles| && |Texts()[h]| + |Texts()[g]| <= MAX_SIZE
      modifies this, store
      ensures Valid() && k == |old(handles)| && Texts() == old(Texts()) + [old(Texts()[h]) + old(Texts()[g])]
    {
      HandleLive(h);
      HandleLive(g);
      hide WellFormed, Counted, Preserves, Tree, Trees, ForestRefs, AllValid, TextsOf, RopeTree.Valid;
      ghost var m0 := store.mem;
      ForestOwned(m0, store.owned, handles);
      var res := store.Concat(handles[h], handles[g]);
      k := Added(res, m0);
    }

    // ---------- cutting and replacing ----------

    /** substr(start, len) */
    method Substr(g: nat, start: nat, len: nat) returns (h: nat)
      requires Valid() && g < |handles|
      modifies this, store
      ensures Valid() && h == |old(handles)|
      ensures Texts() == old(Texts()) + [Ops.Slice(old(Texts()[g]), start, start + len)]
    {
      HandleLive(g);
      hide WellFormed, Counted, Preserves, Tree, Trees, ForestRefs, AllValid, TextsOf, RopeTree.Valid;
      ghost var m0 := store.mem;
      ForestOwned(m0, store.owned, handles);
      var res := store.SubstringOpt(handles[g], start, start + len);
      Ops.SubstringOptContent(TreeOpt(m0, handles[g]), start, start + len);
      h := Added(res, m0);
    }

    /** pop_front and pop_back. */
    method Shrink(h: nat, start: nat, endp1: nat)
      requires Valid() && h < |handles| && start <= endp1 <= |Texts()[h]|
      modifies this, store
      ensures Valid() && Texts() == old(Texts())[h := old(Texts()[h])[start..endp1]]
    {
      HandleLive(h);
      hide WellFormed, Counted, Preserves, Tree, Trees, ForestRefs, AllValid, TextsOf, RopeTree.Valid;
      ghost var m0 := store.mem;
      ForestOwned(m0, store.owned, handles);
      var res := store.SubstringOpt(handles[h], start, endp1);
      Ops.SubstringOptContent(TreeOpt(m0, handles[h]), start, endp1);
      Assigned(h, res, m0);
    }

    /** The rest of replace, insert and erase. */
    method SpliceInto(h: nat, p: nat, n: nat, r: Option<Addr>)
      requires Valid() && h < |handles| && store.LiveOpt(r)
      requires JoinableOpt(TreeOpt(store.mem, handles[h]), TreeOpt(store.mem, r))
      modifies this, store
      ensures Valid()
      ensures Texts() == old(Texts())[h := Ops.Splice(old(Texts()[h]), p, n, old(Chars(TreeOpt(store.mem, r))))]
    {
      hide WellFormed, Counted, Preserves, Tree, Trees, ForestRefs, AllValid, TextsOf, RopeTree.Valid;
      hide Ops.Replace, Ops.Slice, Ops.Splice, Content, Size, ForestLive, OptRefs;
      HandleLive(h);
      ghost var m0 := store.mem;
      ForestOwned(m0, store.owned, handles);
      Ops.ReplaceIsSplice(TreeOpt(m0, handles[h]), p, n, TreeOpt(m0, r));
      var res := store.Replace(handles[h], p, p + n, r);
      Assigned(h, res, m0);
    }

    /** replace(p, n, const rope&); insert(p, const rope&) is the case n == 0. */
    method Replace(h: nat, p: nat, n: nat, g: nat)
      requires Valid() && h < |handles| && g < |handles| && |Texts()[h]| + |Texts()[g]| <= MAX_SIZE
      modifies this, store
      ensures Valid()
      ensures Texts() == old(Texts())[h := Ops.Splice(old(Texts()[h]), p, n, old(Texts()[g]))]
    {
      HandleLive(h);
      HandleLive(g);
      hide WellFormed, Counted, Preserves, Tree, Trees, ForestRefs, AllValid, TextsOf, Ops.Splice, RopeTree.Valid;
      SpliceInto(h, p, n, handles[g]);
    }

    /** erase(p, n) */
    method Erase(h: nat, p: nat, n: nat)
      requires Valid() && h < |handles|
      modifies this, store
      ensures Valid() && Texts() == old(Texts())[h := Ops.Splice(old(Texts()[h]), p, n, [])]
    {
      HandleLive(h);
      hide WellFormed, Counted, Preserves, Tree, Trees, ForestRefs, AllValid, TextsOf, Ops.Splice, RopeTree.Valid;
      SpliceInto(h, p, n, None);
    }

    /** erase(p), which takes p + 1 characters out. */
    method EraseAt(h: nat, p: nat)
      requires Valid() && h < |handles|
      modifies this, store
      ensures Valid() && Texts() == old(Texts())[h := Ops.Splice(old(Texts()[h]), p, p + 1, [])]
    {
      Erase(h, p, p + 1);
    }

    /** balance() */
    method Balance(h: nat)
      requires Valid() && h < |handles| && Texts()[h] != []
      modifies this, store
      ensures Valid() && Texts() == old(Texts()) && h < |handles| && handles[h].Some?
      ensures IsRoughlyBalanced(Tree(store.mem, handles[h].value))
    {
      HandleLive(h);
      hide WellFormed, Counted, Preserves, Tree, Trees, ForestRefs, AllValid, TextsOf, Content, Fib, Size, Depth;
      hide IsRoughlyBalanced, ForestLive, OptRefs;
      ghost var m0 := store.mem;
      ForestOwned(m0, store.owned, handles);
      UpdateSame(Texts(), h);
      var a := store.Balance(handles[h].value);
      Assigned(h, Some(a), m0);
    }
  }
}
