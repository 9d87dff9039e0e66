/**
 * Concatenation of blocks.  Every generator appends, position by position,
 * a block of candidates to its result list; `Flatten` of the blocks is that
 * result.
 */
module Lists {

  /** The blocks of `xss` concatenated in order. */
  function Flatten<T>(xss: seq<seq<T>>): seq<T> {
    if |xss| == 0 then [] else Flatten(xss[..|xss| - 1]) + xss[|xss| - 1]
  }

  /** The set of elements of a list: Python's `set(xs)`. */
  function SetOf<T>(xs: seq<T>): set<T> {
    set x | x in xs
  }

  /** The elements of two lists joined are the elements of either. */
  lemma SetOfConcat<T>(xs: seq<T>, ys: seq<T>)
    ensures SetOf(xs + ys) == SetOf(xs) + SetOf(ys)
  {
    forall x | x in SetOf(xs) + SetOf(ys) ensures x in SetOf(xs + ys) {
      if x in xs {
        var i :| 0 <= i < |xs| && xs[i] == x;
        assert (xs + ys)[i] == x;
      } else {
        var j :| 0 <= j < |ys| && ys[j] == x;
        assert (xs + ys)[|xs| + j] == x;
      }
    }
  }

  /** Appending one more block extends the concatenation by that block. */
  lemma FlattenSnoc<T>(xss: seq<seq<T>>, i: nat)
    requires i < |xss|
    ensures Flatten(xss[..i + 1]) == Flatten(xss[..i]) + xss[i]
  {
    assert xss[..i + 1][..i] == xss[..i];
  }

  /** An element of the concatenation is an element of some block, and back. */
  lemma {:induction false} FlattenMember<T>(xss: seq<seq<T>>, x: T)
    ensures x in Flatten(xss) <==> exists i :: 0 <= i < |xss| && x in xss[i]
  {
    if |xss| > 0 {
      var init := xss[..|xss| - 1];
      FlattenMember(init, x);
      if x in Flatten(xss) && x !in xss[|xss| - 1] {
        var i :| 0 <= i < |init| && x in init[i];
        assert x in xss[i];
      }
      if exists i :: 0 <= i < |xss| && x in xss[i] {
        var i :| 0 <= i < |xss| && x in xss[i];
        if i < |xss| - 1 {
          assert x in init[i];
        }
      }
    }
  }

  /** Blocks of `w` elements each concatenate to `w` elements per block. */
  lemma {:induction false} FlattenUniformLength<T>(xss: seq<seq<T>>, w: nat)
    requires forall i :: 0 <= i < |xss| ==> |xss[i]| == w
    ensures |Flatten(xss)| == w * |xss|
  {
    if |xss| > 0 {
      var init := xss[..|xss| - 1];
      assert forall i :: 0 <= i < |init| ==> init[i] == xss[i];
      FlattenUniformLength(init, w);
      assert w * |xss| == w * |init| + w;
    }
  }

  /** Element `w * i + k` of blocks of `w` elements is element `k` of block `i`. */
  lemma FlattenUniformAt<T>(xss: seq<seq<T>>, w: nat, i: nat, k: nat)
    requires forall i :: 0 <= i < |xss| ==> |xss[i]| == w
    requires i < |xss| && k < w
    ensures w * i + k < |Flatten(xss)| && Flatten(xss)[w * i + k] == xss[i][k]
  {
    var front := xss[..i];
    var back := xss[i + 1..];
    assert xss == front + ([xss[i]] + back);
    assert forall j :: 0 <= j < |front| ==> front[j] == xss[j];
    FlattenUniformLength(front, w);
    FlattenConcat(front, [xss[i]] + back);
    FlattenConcat([xss[i]], back);
    assert [xss[i]][..0] == [];
    assert Flatten([xss[i]]) == xss[i];
    assert Flatten(xss) == Flatten(front) + (xss[i] + Flatten(back));
    assert |Flatten(front)| == w * i;
  }

  /** Concatenating two lists of blocks concatenates their concatenations. */
  lemma {:induction false} FlattenConcat<T>(xss: seq<seq<T>>, yss: seq<seq<T>>)
    ensures Flatten(xss + yss) == Flatten(xss) + Flatten(yss)
    decreases |yss|
  {
    if |yss| == 0 {
      assert xss + yss == xss;
    } else {
      var init := yss[..|yss| - 1];
      FlattenConcat(xss, init);
      assert (xss + yss)[..|xss + yss| - 1] == xss + init;
    }
  }

  /** Three blocks concatenated. */
  lemma FlattenThree<T>(x: seq<T>, y: seq<T>, z: seq<T>)
    ensures Flatten([x, y, z]) == x + y + z
  {
    assert [x][..0] == [];
    assert Flatten([x]) == x;
    assert [x, y][..1] == [x];
    assert Flatten([x, y]) == x + y;
    assert [x, y, z][..2] == [x, y];
  }
}
