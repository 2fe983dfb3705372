/** Teardown of a trie: clean's recursive post-order traversal, which releases
    every node after all of its children. */
module Teardown {
  import opened Wrappers
  import opened Chars
  import opened Trie

  /** A node's address: the slots followed from the root to reach it. */
  type Path = seq<nat>

  /** `p` leads, slot by slot, from `n` to an existing node. */
  predicate IsNode(n: Node, p: Path)
    requires Wf(n)
    decreases |p|
  {
    || |p| == 0
    || (p[0] < N && n.children[p[0]].Some? && IsNode(n.children[p[0]].value, p[1..]))
  }

  /** No node is released twice. */
  predicate Distinct(ps: seq<Path>)
  {
    forall i, j :: 0 <= i < j < |ps| ==> ps[i] != ps[j]
  }

  /** A node is released only after every node below it. */
  predicate PostOrder(ps: seq<Path>)
  {
    forall i, j :: 0 <= i < |ps| && 0 <= j < |ps| && ps[j] < ps[i] ==> i < j
  }

  /** The release order of a child's subtree, seen from its parent through slot `k`. */
  function Under(k: nat, ps: seq<Path>): (r: seq<Path>)
    ensures forall p :: p in r <==> |p| > 0 && p[0] == k && p[1..] in ps
  {
    var r := seq(|ps|, i requires 0 <= i < |ps| => [k] + ps[i]);
    assert forall p :: p in r ==> |p| > 0 && p[0] == k && p[1..] in ps by {
      forall p | p in r ensures |p| > 0 && p[0] == k && p[1..] in ps {
        var i :| 0 <= i < |r| && r[i] == p;
        assert p[1..] == ps[i];
      }
    }
    assert forall p :: |p| > 0 && p[0] == k && p[1..] in ps ==> p in r by {
      forall p | |p| > 0 && p[0] == k && p[1..] in ps ensures p in r {
        var i :| 0 <= i < |ps| && ps[i] == p[1..];
        assert r[i] == p;
      }
    }
    r
  }

  /** clean: release each present child's subtree in slot order, then the node
      itself; the order of releases is returned alongside clean's result. */
  method Clean(n: Node) returns (released: seq<Path>, ok: bool)
    requires Wf(n)
    ensures ok
    ensures |released| > 0 && released[|released| - 1] == []
    ensures forall p :: p in released <==> IsNode(n, p)
    ensures Distinct(released) && PostOrder(released)
    decreases n
  {
    released := [];
    var i := 0;
    while i < N
      invariant 0 <= i <= N
      invariant forall p :: p in released <==> |p| > 0 && p[0] < i && IsNode(n, p)
      invariant Distinct(released) && PostOrder(released)
    {
      match n.children[i] {
        case None =>
        case Some(c) =>
          var sub, _ := Clean(c);
          UnderFacts(n, i, sub);
          AppendBlock(released, Under(i, sub), i);
          released := released + Under(i, sub);
      }
      i := i + 1;
    }
    AppendRoot(released);
    released := released + [[]];
    ok := true;
  }

  /** Prefixing a child's release order with its slot gives exactly the nodes of
      that subtree, seen from the parent, still distinct and in post-order. */
  lemma UnderFacts(n: Node, k: nat, sub: seq<Path>)
    requires Wf(n) && k < N && n.children[k].Some?
    requires forall p :: p in sub <==> IsNode(n.children[k].value, p)
    requires Distinct(sub) && PostOrder(sub)
    ensures forall p :: p in Under(k, sub) <==> |p| > 0 && p[0] == k && IsNode(n, p)
    ensures Distinct(Under(k, sub)) && PostOrder(Under(k, sub))
  {
    var u := Under(k, sub);
    forall p | |p| > 0 && p[0] == k ensures IsNode(n, p) <==> p[1..] in sub {
    }
    forall i, j | 0 <= i < j < |u| ensures u[i] != u[j] {
      assert u[i][1..] == sub[i] && u[j][1..] == sub[j];
    }
    forall i, j | 0 <= i < |u| && 0 <= j < |u| && u[j] < u[i] ensures i < j {
      assert u[j][1..] == sub[j] && u[i][1..] == sub[i];
      assert sub[j] < sub[i];
    }
  }

  /** Appending the block of slot `k` after the blocks of the lower slots keeps the
      order distinct and post-order: a node and its descendants share a first slot. */
  lemma AppendBlock(a: seq<Path>, b: seq<Path>, k: nat)
    requires forall p :: p in a ==> |p| > 0 && p[0] < k
    requires forall p :: p in b ==> |p| > 0 && p[0] == k
    requires Distinct(a) && PostOrder(a) && Distinct(b) && PostOrder(b)
    ensures Distinct(a + b) && PostOrder(a + b)
  {
    var s := a + b;
    forall i, j | 0 <= i < |s| && 0 <= j < |s| && s[j] < s[i] ensures i < j {
      if |a| <= i {
        assert s[i] in b && s[j] in s;
        assert s[j][0] == s[i][0] == k;
        assert |a| <= j;
        assert s[j] == b[j - |a|] && s[i] == b[i - |a|];
      } else if j < |a| {
        assert s[j] == a[j] && s[i] == a[i];
      }
    }
    forall i, j | 0 <= i < j < |s| ensures s[i] != s[j] {
      if i < |a| && |a| <= j {
        assert s[i] in a && s[j] in b;
      } else if |a| <= i {
        assert s[i] == b[i - |a|] && s[j] == b[j - |a|];
      } else {
        assert s[i] == a[i] && s[j] == a[j];
      }
    }
  }

  /** Releasing the node itself last keeps the order distinct and post-order. */
  lemma AppendRoot(a: seq<Path>)
    requires forall p :: p in a ==> |p| > 0
    requires Distinct(a) && PostOrder(a)
    ensures Distinct(a + [[]]) && PostOrder(a + [[]])
  {
    var s := a + [[]];
    forall i, j | 0 <= i < |s| && 0 <= j < |s| && s[j] < s[i] ensures i < j {
      if i < |a| && j < |a| {
        assert s[j] == a[j] && s[i] == a[i];
      }
    }
    forall i, j | 0 <= i < j < |s| ensures s[i] != s[j] {
      if j == |a| {
        assert s[i] in a;
      } else {
        assert s[i] == a[i] && s[j] == a[j];
      }
    }
  }
}
