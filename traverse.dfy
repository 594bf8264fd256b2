/**
 * Code-path assignment (`traverse_tree` in src/encode.c). The walk is depth
 * first, left before right; going left appends '0' to the path, going right
 * appends '1', and each leaf is emitted with the path that leads to it.
 * `Codes` is the walk with the path passed down explicitly; `TraverseTree`
 * is the same walk over the fixed path buffer `buf` and its fill level `n`.
 */
module Traverse {
  import opened HuffmanNode

  /** One output line of traverse_tree: a leaf's symbol and its path from the root. */
  type Code = (int, seq<char>)

  /** The leaves of `t` with their paths, paths extending `path`, left to right. */
  function Codes(t: Node, path: seq<char>): (codes: seq<Code>)
    ensures |codes| == |Leaves(t)|
  {
    match t
    case Leaf(s, _) => [(s, path)]
    case Internal(_, l, r) => Codes(l, path + ['0']) + Codes(r, path + ['1'])
  }

  /**
   * The walk emits the leaves in left-to-right order, every path starts with
   * the path given, continues with '0's and '1's only, and is at most
   * `Height(t)` longer; a leaf at the top gets exactly the path given.
   */
  lemma {:induction false} CodesShape(t: Node, path: seq<char>)
    ensures var codes := Codes(t, path);
      forall i :: 0 <= i < |codes| ==>
        codes[i].0 == Leaves(t)[i].sym &&
        path <= codes[i].1 &&
        |codes[i].1| <= |path| + Height(t) &&
        forall k :: |path| <= k < |codes[i].1| ==> codes[i].1[k] == '0' || codes[i].1[k] == '1'
    ensures t.Leaf? ==> Codes(t, path) == [(t.sym, path)]
  {
    match t
    case Leaf(_, _) =>
    case Internal(_, l, r) =>
      CodesShape(l, path + ['0']);
      CodesShape(r, path + ['1']);
      var cl, cr := Codes(l, path + ['0']), Codes(r, path + ['1']);
      var codes := cl + cr;
      forall i | 0 <= i < |codes|
        ensures codes[i].0 == Leaves(t)[i].sym
        ensures path <= codes[i].1
        ensures |codes[i].1| <= |path| + Height(t)
        ensures forall k :: |path| <= k < |codes[i].1| ==> codes[i].1[k] == '0' || codes[i].1[k] == '1'
      {
        if i < |cl| {
          assert codes[i] == cl[i];
        } else {
          assert codes[i] == cr[i - |cl|];
        }
      }
  }

  /**
   * No emitted path is a prefix of another one (nor equal to it): the codes
   * are prefix free.
   */
  lemma {:induction false} CodesPrefixFree(t: Node, path: seq<char>)
    ensures var codes := Codes(t, path);
      forall i, j :: 0 <= i < |codes| && 0 <= j < |codes| && i != j ==> !(codes[i].1 <= codes[j].1)
  {
    match t
    case Leaf(_, _) =>
    case Internal(_, l, r) =>
      var pl, pr := path + ['0'], path + ['1'];
      CodesPrefixFree(l, pl);
      CodesPrefixFree(r, pr);
      CodesShape(l, pl);
      CodesShape(r, pr);
      var cl, cr := Codes(l, pl), Codes(r, pr);
      var codes := cl + cr;
      forall i, j | 0 <= i < |codes| && 0 <= j < |codes| && i != j
        ensures !(codes[i].1 <= codes[j].1)
      {
        if i < |cl| && j < |cl| {
          assert codes[i] == cl[i] && codes[j] == cl[j];
        } else if |cl| <= i && |cl| <= j {
          assert codes[i] == cr[i - |cl|] && codes[j] == cr[j - |cl|];
        } else if i < |cl| {
          assert codes[i] == cl[i] && codes[j] == cr[j - |cl|];
          Diverge(path, codes[i].1, codes[j].1);
        } else {
          assert codes[i] == cr[i - |cl|] && codes[j] == cl[j];
          Diverge(path, codes[j].1, codes[i].1);
        }
      }
  }

  /** A path through the left child and one through the right child are not prefixes of each other. */
  lemma Diverge(path: seq<char>, a: seq<char>, b: seq<char>)
    requires path + ['0'] <= a && path + ['1'] <= b
    ensures !(a <= b) && !(b <= a)
  {
    assert a[|path|] == '0' && b[|path|] == '1';
  }

  /**
   * traverse_tree over the static buffer: `buf[..n]` holds the path to `np`.
   * The walk returns what it prints and leaves the live part of the buffer as
   * it found it, so sibling subtrees never see each other's paths.
   */
  method TraverseTree(np: Node, buf: array<char>, n: nat) returns (out: seq<Code>)
    requires n + Height(np) < buf.Length
    modifies buf
    ensures buf[..n] == old(buf[..n])
    ensures out == Codes(np, old(buf[..n]))
    decreases np
  {
    if np.Leaf? {
      buf[n] := 0 as char;
      out := [(np.sym, buf[..n])];
      buf[n] := '-';
      assert buf[..n] == old(buf[..n]);
      return;
    }
    ghost var path := buf[..n];
    buf[n] := '0';
    assert buf[..n + 1] == path + ['0'];
    var outLeft := TraverseTree(np.left, buf, n + 1);
    buf[n] := '1';
    assert buf[..n + 1] == path + ['1'];
    var outRight := TraverseTree(np.right, buf, n + 1);
    assert buf[..n] == buf[..n + 1][..n];
    out := outLeft + outRight;
  }
}
