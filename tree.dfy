/** What `process_parts` does to a whole message tree: the multipart skeleton
    is kept, and on the leaves, read in document order, it acts leaf by leaf,
    stopping at the first exception. */
module RewriteProperties {
  import opened Wrappers
  import opened Mime
  import opened ImagePipeline
  import opened Shrinker

  /** `q` has the multipart skeleton of `p`: the same nesting, and at every
      multipart node the same content type, headers and number of children. */
  predicate SameShape(p: Part, q: Part)
    decreases p
  {
    match p
    case Leaf(_, _, _, _, _) => q.Leaf?
    case Container(ctype, headers, cs) =>
      && q.Container? && q.ctype == ctype && q.headers == headers
      && |q.children| == |cs|
      && forall i :: 0 <= i < |cs| ==> SameShape(cs[i], q.children[i])
  }

  /** The leaves of a tree in document order (the order `walk()` visits them). */
  function Leaves(p: Part): (ls: seq<Part>)
    ensures forall i :: 0 <= i < |ls| ==> ls[i].Leaf?
    decreases p
  {
    match p
    case Leaf(_, _, _, _, _) => [p]
    case Container(_, _, cs) => LeavesOf(cs)
  }

  function LeavesOf(cs: seq<Part>): (ls: seq<Part>)
    ensures forall i :: 0 <= i < |ls| ==> ls[i].Leaf?
    decreases cs
  {
    if cs == [] then [] else LeavesOf(cs[..|cs| - 1]) + Leaves(cs[|cs| - 1])
  }

  /** The reference behaviour: rewrite the leaves one after the other, in
      order, and stop at the first exception. */
  function RewriteEachLeaf(env: Env, ls: seq<Part>): Result<seq<Part>, Exception>
    decreases |ls|
  {
    if ls == [] then Success([])
    else
      var done :- RewriteEachLeaf(env, ls[..|ls| - 1]);
      var last :- RewriteLeaf(env, ls[|ls| - 1]);
      Success(done + [last])
  }

  function LeavesOfResult(r: Result<Part, Exception>): Result<seq<Part>, Exception> {
    match r
    case Success(q) => Success(Leaves(q))
    case Failure(e) => Failure(e)
  }

  function LeavesOfChildrenResult(r: Result<seq<Part>, Exception>): Result<seq<Part>, Exception> {
    match r
    case Success(rs) => Success(LeavesOf(rs))
    case Failure(e) => Failure(e)
  }

  /** Run `a`, then `b`: the first exception wins, otherwise the results are
      concatenated. */
  function Then(a: Result<seq<Part>, Exception>, b: Result<seq<Part>, Exception>): Result<seq<Part>, Exception> {
    var x :- a;
    var y :- b;
    Success(x + y)
  }

  lemma {:induction false} RewriteEachLeafAppend(env: Env, a: seq<Part>, b: seq<Part>)
    ensures RewriteEachLeaf(env, a + b) == Then(RewriteEachLeaf(env, a), RewriteEachLeaf(env, b))
    decreases |b|
  {
    if b == [] {
      assert a + b == a;
      if RewriteEachLeaf(env, a).Success? {
        assert RewriteEachLeaf(env, a).value + [] == RewriteEachLeaf(env, a).value;
      }
    } else {
      var b' := b[..|b| - 1];
      assert (a + b)[..|a + b| - 1] == a + b';
      assert (a + b)[|a + b| - 1] == b[|b| - 1];
      RewriteEachLeafAppend(env, a, b');
      if RewriteEachLeaf(env, a).Success? && RewriteEachLeaf(env, b').Success?
        && RewriteLeaf(env, b[|b| - 1]).Success?
      {
        var x, y, z := RewriteEachLeaf(env, a).value, RewriteEachLeaf(env, b').value,
          RewriteLeaf(env, b[|b| - 1]).value;
        assert x + y + [z] == x + (y + [z]);
      }
    }
  }

  lemma {:induction false} LeavesOfAppendOne(cs: seq<Part>, c: Part)
    ensures LeavesOf(cs + [c]) == LeavesOf(cs) + Leaves(c)
  {
  }

  /** The rewrite seen on the leaves is the reference behaviour. */
  lemma {:induction false} Leafwise(env: Env, p: Part)
    ensures RewriteEachLeaf(env, Leaves(p)) == LeavesOfResult(Rewritten(env, p))
    decreases p
  {
    match p
    case Leaf(_, _, _, _, _) =>
      assert [p][..0] == [];
      if RewriteLeaf(env, p).Success? {
        var q := RewriteLeaf(env, p).value;
        assert Leaves(q) == [q] == [] + [q];
      }
    case Container(_, _, cs) =>
      LeafwiseChildren(env, cs);
  }

  lemma {:induction false} LeafwiseChildren(env: Env, cs: seq<Part>)
    ensures RewriteEachLeaf(env, LeavesOf(cs)) == LeavesOfChildrenResult(RewrittenChildren(env, cs))
    decreases cs
  {
    if cs != [] {
      var init, last := cs[..|cs| - 1], cs[|cs| - 1];
      RewriteEachLeafAppend(env, LeavesOf(init), Leaves(last));
      LeafwiseChildren(env, init);
      Leafwise(env, last);
      if RewrittenChildren(env, init).Success? && Rewritten(env, last).Success? {
        LeavesOfAppendOne(RewrittenChildren(env, init).value, Rewritten(env, last).value);
      }
    }
  }

  /** Leaf `k` of `ls` is the first whose rewrite raises, and it raises `e`. */
  predicate FirstRaisingLeaf(env: Env, ls: seq<Part>, k: nat, e: Exception) {
    && k < |ls|
    && (forall j :: 0 <= j < k ==> RewriteLeaf(env, ls[j]).Success?)
    && RewriteLeaf(env, ls[k]) == Failure(e)
  }

  /** The reference behaviour succeeds exactly when every leaf's rewrite does,
      and then rewrites each leaf in place. */
  lemma {:induction false} RewriteEachLeafPointwise(env: Env, ls: seq<Part>)
    ensures RewriteEachLeaf(env, ls).Success? <==>
      forall i :: 0 <= i < |ls| ==> RewriteLeaf(env, ls[i]).Success?
    ensures RewriteEachLeaf(env, ls).Success? ==>
      var rs := RewriteEachLeaf(env, ls).value;
      |rs| == |ls| && forall i :: 0 <= i < |ls| ==> RewriteLeaf(env, ls[i]) == Success(rs[i])
    decreases |ls|
  {
    if ls != [] {
      var n := |ls| - 1;
      var init, last := ls[..n], ls[n];
      RewriteEachLeafPointwise(env, init);
      assert forall i :: 0 <= i < n ==> init[i] == ls[i];
      if RewriteEachLeaf(env, init).Failure? {
        var i :| 0 <= i < n && RewriteLeaf(env, init[i]).Failure?;
        assert RewriteLeaf(env, ls[i]).Failure?;
      } else if RewriteLeaf(env, last).Failure? {
        assert RewriteEachLeaf(env, ls).Failure?;
      } else {
        var rs := RewriteEachLeaf(env, init).value + [RewriteLeaf(env, last).value];
        assert RewriteEachLeaf(env, ls) == Success(rs);
      }
    }
  }

  /** When the reference behaviour raises, it raises the exception of the
      first leaf whose rewrite raises. */
  lemma {:induction false} RewriteEachLeafFirstRaising(env: Env, ls: seq<Part>)
    requires RewriteEachLeaf(env, ls).Failure?
    ensures exists k :: FirstRaisingLeaf(env, ls, k, RewriteEachLeaf(env, ls).error)
    decreases |ls|
  {
    var n := |ls| - 1;
    var init := ls[..n];
    assert forall i :: 0 <= i < n ==> init[i] == ls[i];
    if RewriteEachLeaf(env, init).Failure? {
      RewriteEachLeafFirstRaising(env, init);
      var k :| FirstRaisingLeaf(env, init, k, RewriteEachLeaf(env, init).error);
      assert FirstRaisingLeaf(env, ls, k, RewriteEachLeaf(env, ls).error);
    } else {
      RewriteEachLeafPointwise(env, init);
      assert FirstRaisingLeaf(env, ls, n, RewriteEachLeaf(env, ls).error);
    }
  }

  /** Structure is preserved: same nesting, same child counts and order, and
      every multipart node keeps its content type and headers. */
  lemma {:induction false} ShapePreserved(env: Env, p: Part)
    requires Rewritten(env, p).Success?
    ensures SameShape(p, Rewritten(env, p).value)
    decreases p
  {
    match p
    case Leaf(_, _, _, _, _) =>
    case Container(_, _, cs) =>
      ContainerRewritten(env, p);
      var q := Rewritten(env, p).value;
      forall i | 0 <= i < |cs|
        ensures SameShape(cs[i], q.children[i])
      {
        ShapePreserved(env, cs[i]);
      }
  }

  /** The whole rewrite: it succeeds exactly when every leaf's rewrite does; the
      result then has the skeleton of the input, and its i-th leaf is the
      rewrite of the input's i-th leaf; otherwise the exception is that of the
      first leaf, in document order, whose rewrite raises. */
  lemma RewriteLeafByLeaf(env: Env, p: Part)
    ensures Rewritten(env, p).Success? <==>
      forall i :: 0 <= i < |Leaves(p)| ==> RewriteLeaf(env, Leaves(p)[i]).Success?
    ensures Rewritten(env, p).Success? ==>
      var q := Rewritten(env, p).value;
      && SameShape(p, q)
      && |Leaves(q)| == |Leaves(p)|
      && forall i :: 0 <= i < |Leaves(p)| ==> RewriteLeaf(env, Leaves(p)[i]) == Success(Leaves(q)[i])
    ensures Rewritten(env, p).Failure? ==>
      exists k :: FirstRaisingLeaf(env, Leaves(p), k, Rewritten(env, p).error)
  {
    Leafwise(env, p);
    RewriteEachLeafPointwise(env, Leaves(p));
    if Rewritten(env, p).Success? {
      ShapePreserved(env, p);
    } else {
      RewriteEachLeafFirstRaising(env, Leaves(p));
    }
  }

  /** Every ineligible leaf of the input (every non-image leaf, every inline
      image) appears unchanged at its place in the output. */
  lemma IneligibleLeavesKept(env: Env, p: Part)
    requires Rewritten(env, p).Success?
    ensures var q := Rewritten(env, p).value;
      && |Leaves(q)| == |Leaves(p)|
      && forall i :: 0 <= i < |Leaves(p)| && !IsEligible(Leaves(p)[i]) ==> Leaves(q)[i] == Leaves(p)[i]
  {
    RewriteLeafByLeaf(env, p);
  }

  /** Leaf `l` raises: `get_filename()` raises on it, its disposition holds
      raw 8-bit bytes, or it is eligible and `resize_image` or the storing of
      its new headers raises. */
  predicate LeafRaisesSomething(env: Env, l: Part) {
    || FilenameRaises(l)
    || HasUndecodedDisposition(l)
    || (IsEligible(l) && (Resized(env.lib, env.decodePayload(l)).Failure? || NewHeadersBreak(env, l)))
  }

  /** Leaf `l` raises `e`, for one of the three reasons. */
  predicate LeafRaisesWith(env: Env, l: Part, e: Exception) {
    || (FilenameRaises(l) && e == l.filename.error)
    || (!FilenameRaises(l) && HasUndecodedDisposition(l) && e == NoStartsWith)
    || (IsEligible(l) && Resized(env.lib, env.decodePayload(l)) == Failure(e))
    || (&& IsEligible(l) && Resized(env.lib, env.decodePayload(l)).Success?
        && NewHeadersBreak(env, l) && e == MultilineHeader)
  }

  /** Errors propagate: the rewrite raises exactly when some leaf raises (in
      `get_filename()`, on an 8-bit disposition, or as an eligible leaf whose image cannot be resized or
      whose new headers cannot be stored), and then with the exception of the
      first such leaf in document order; nothing is caught and no partial tree
      is returned. */
  lemma ErrorsPropagate(env: Env, p: Part)
    ensures Rewritten(env, p).Failure? <==>
      exists i :: 0 <= i < |Leaves(p)| && LeafRaisesSomething(env, Leaves(p)[i])
    ensures Rewritten(env, p).Failure? ==>
      exists k :: 0 <= k < |Leaves(p)|
        && LeafRaisesWith(env, Leaves(p)[k], Rewritten(env, p).error)
        && forall j :: 0 <= j < k ==> !LeafRaisesSomething(env, Leaves(p)[j])
  {
    RewriteLeafByLeaf(env, p);
    var ls := Leaves(p);
    forall i | 0 <= i < |ls|
      ensures RewriteLeaf(env, ls[i]).Failure? <==> LeafRaisesSomething(env, ls[i])
      ensures RewriteLeaf(env, ls[i]).Failure? ==> LeafRaisesWith(env, ls[i], RewriteLeaf(env, ls[i]).error)
    {
      LeafRaises(env, ls[i]);
    }
  }

  /** No part of `ls` is touched by the rewrite: none is eligible, none has
      a disposition of raw 8-bit bytes and on none `get_filename()` raises. */
  predicate NothingToTouch(ls: seq<Part>) {
    forall i :: 0 <= i < |ls| ==>
      !IsEligible(ls[i]) && !HasUndecodedDisposition(ls[i]) && !FilenameRaises(ls[i])
  }

  lemma NothingToTouchSplit(a: seq<Part>, b: seq<Part>)
    requires NothingToTouch(a + b)
    ensures NothingToTouch(a) && NothingToTouch(b)
  {
    assert forall i :: 0 <= i < |a| ==> a[i] == (a + b)[i];
    assert forall i :: 0 <= i < |b| ==> b[i] == (a + b)[|a| + i];
  }

  /** A message with no eligible leaf, no leaf on which `get_filename()`
      raises, and no leaf whose disposition holds raw
      8-bit bytes, comes back exactly as it was. */
  lemma {:induction false} NoEligibleLeafNoChange(env: Env, p: Part)
    requires NothingToTouch(Leaves(p))
    ensures Rewritten(env, p) == Success(p)
    decreases p
  {
    match p
    case Leaf(_, _, _, _, _) =>
      assert Leaves(p)[0] == p;
    case Container(_, _, cs) =>
      assert Leaves(p) == LeavesOf(cs);
      NoEligibleChildNoChange(env, cs);
  }

  lemma {:induction false} NoEligibleChildNoChange(env: Env, cs: seq<Part>)
    requires NothingToTouch(LeavesOf(cs))
    ensures RewrittenChildren(env, cs) == Success(cs)
    decreases cs
  {
    if cs != [] {
      var init, last := cs[..|cs| - 1], cs[|cs| - 1];
      NothingToTouchSplit(LeavesOf(init), Leaves(last));
      NoEligibleChildNoChange(env, init);
      NoEligibleLeafNoChange(env, last);
      assert init + [last] == cs;
    }
  }
}
