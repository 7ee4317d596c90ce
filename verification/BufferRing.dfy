/** The doubly linked list of bio.c: NBUF buffers and the list head, linked by next and prev. */
module BufferRing {
  import opened Basics

  const NBUF := 30
  const HEAD := 30

  type Buf = b: int | 0 <= b < 30
  type Links = s: seq<int> | |s| == 31 witness seq(31, _ => 0)

  /** The list from the head through r and back to the head. */
  function Path(r: seq<Buf>): (p: seq<int>)
    ensures |p| == |r| + 2 && p[0] == HEAD && p[|p| - 1] == HEAD
    ensures forall i :: 0 < i < |p| - 1 ==> p[i] == r[i - 1]
  {
    [HEAD] + r + [HEAD]
  }

  /** next and prev spell the ring r, in both directions. */
  ghost predicate Spells(next: Links, prev: Links, r: seq<Buf>) {
    && NoRepeats(r)
    && forall i, j :: 0 <= i < j < |r| + 2 && j == i + 1 ==>
          next[Path(r)[i]] == Path(r)[j] && prev[Path(r)[j]] == Path(r)[i]
  }

  /** Linking b in behind the head. */
  function FrontNext(next: Links, b: Buf): Links { next[b := next[HEAD]][HEAD := b] }
  function FrontPrev(next: Links, prev: Links, b: Buf): Links
    requires 0 <= next[HEAD] <= HEAD
  {
    prev[b := HEAD][next[HEAD] := b]
  }

  lemma FirstLink(next: Links, prev: Links, r: seq<Buf>)
    requires Spells(next, prev, r)
    ensures next[HEAD] == if r == [] then HEAD else r[0]
    ensures prev[HEAD] == if r == [] then HEAD else r[|r| - 1]
  {
    assert next[Path(r)[0]] == Path(r)[1];
    assert prev[Path(r)[|r| + 1]] == Path(r)[|r|];
  }

  lemma PushFront(next: Links, prev: Links, r: seq<Buf>, b: Buf)
    requires Spells(next, prev, r) && b !in r
    ensures 0 <= next[HEAD] <= HEAD
    ensures Spells(FrontNext(next, b), FrontPrev(next, prev, b), [b] + r)
  {
    FirstLink(next, prev, r);
    var n, p, q := FrontNext(next, b), FrontPrev(next, prev, b), Path([b] + r);
    forall i, j | 0 <= i < j < |r| + 3 && j == i + 1 ensures n[q[i]] == q[j] && p[q[j]] == q[i] {
      if i > 1 {
        assert next[Path(r)[i - 1]] == Path(r)[i] && prev[Path(r)[i]] == Path(r)[i - 1];
      } else if i == 1 {
        assert next[Path(r)[0]] == Path(r)[1];
      }
    }
  }

  /** Taking the element at k out. */
  function Without(r: seq<Buf>, k: nat): seq<Buf>
    requires k < |r|
  {
    r[..k] + r[k + 1..]
  }

  lemma Neighbours(next: Links, prev: Links, r: seq<Buf>, k: nat)
    requires k < |r| && Spells(next, prev, r)
    ensures next[r[k]] == Path(r)[k + 2] && prev[r[k]] == Path(r)[k]
    ensures 0 <= next[r[k]] <= HEAD && 0 <= prev[r[k]] <= HEAD
  {
    assert Path(r)[k + 1] == r[k];
  }

  lemma Unlink(next: Links, prev: Links, r: seq<Buf>, k: nat)
    requires k < |r| && Spells(next, prev, r)
    requires next[r[k]] == Path(r)[k + 2] && prev[r[k]] == Path(r)[k]
    requires 0 <= next[r[k]] <= HEAD && 0 <= prev[r[k]] <= HEAD
    ensures var b := r[k];
            Spells(next[prev[b] := next[b]], prev[next[b] := prev[b]], Without(r, k)) && b !in Without(r, k)
  {
    var b := r[k];
    var n, p := next[prev[b] := next[b]], prev[next[b] := prev[b]];
    var w := Without(r, k);
    var q, o := Path(w), Path(r);
    assert forall i :: 0 <= i <= k ==> q[i] == o[i];
    assert forall i :: k < i < |q| ==> q[i] == o[i + 1];
    forall i, j | 0 <= i < j < |w| + 2 && j == i + 1 ensures n[q[i]] == q[j] && p[q[j]] == q[i] {
      if i < k {
        assert next[o[i]] == o[i + 1] && prev[o[i + 1]] == o[i];
        Apart(r, i, k);
        Apart(r, i + 1, k + 2);
      } else if i > k {
        assert next[o[i + 1]] == o[i + 2] && prev[o[i + 2]] == o[i + 1];
        Apart(r, k, i + 1);
        Apart(r, k + 2, i + 2);
      }
    }
  }

  /** Places of the path differ, except that it ends where it begins. */
  lemma Apart(r: seq<Buf>, i: nat, j: nat)
    requires NoRepeats(r) && i < j < |r| + 2 && !(i == 0 && j == |r| + 1)
    ensures Path(r)[i] != Path(r)[j]
  {}
}
