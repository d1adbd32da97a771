/**
 * CurveData (src/Train/ErgFilePlot.cpp): an append-only pair of parallel
 * sample buffers, x and y, with a logical count kept apart from the storage
 * size. Storage grows in blocks of 1000 samples so that a long session does
 * not reallocate on every sample; clear empties the storage as well.
 */
module Curves {

  /** Storage grows in blocks of this many samples. */
  const BlockSize: nat := 1000

  /** The storage size append asks for: the next multiple of BlockSize strictly above count. */
  function GrownSize(count: nat): (size: nat)
    ensures size % BlockSize == 0
    ensures count < size <= count + BlockSize
  {
    (count / BlockSize + 1) * BlockSize
  }

  /** v resized to n elements the way a vector grows: old elements kept, new ones zero. */
  function Resized(v: seq<real>, n: nat): (w: seq<real>)
    requires |v| <= n
    ensures |w| == n && w[..|v|] == v
  {
    v + seq(n - |v|, _ => 0.0)
  }

  class CurveData {

    /** The x buffer, the y buffer and the logical count (d_x, d_y, d_count). */
    var dataX: seq<real>
    var dataY: seq<real>
    var dataCount: nat

    /** Both buffers have the same size, a multiple of BlockSize, and hold at least the count. */
    ghost predicate Valid()
      reads this
    {
      && |dataX| == |dataY|
      && dataCount <= |dataX|
      && |dataX| % BlockSize == 0
    }

    constructor ()
      ensures Valid() && Count() == 0 && Size() == 0
    {
      dataX, dataY, dataCount := [], [], 0;
    }

    /** count(): the number of samples held, never more than the storage size. */
    function Count(): (n: nat)
      reads this
      ensures Valid() ==> n <= |dataX| && n <= |dataY|
    {
      dataCount
    }

    /** size(): the storage size, a whole number of blocks holding at least the samples. */
    function Size(): (n: nat)
      reads this
      ensures Valid() ==> n % BlockSize == 0 && dataCount <= n && n == |dataY|
    {
      |dataX|
    }

    /** The samples' x coordinates: the first Count() entries of the x buffer. */
    function Xs(): (s: seq<real>)
      reads this
      requires Valid()
      ensures |s| == Count()
    {
      dataX[..dataCount]
    }

    /** The samples' y values: the first Count() entries of the y buffer. */
    function Ys(): (s: seq<real>)
      reads this
      requires Valid()
      ensures |s| == Count()
    {
      dataY[..dataCount]
    }

    /**
     * Appends the first count entries of x and y. The storage is resized to
     * the next block above the new count only when that is larger than the
     * current size, so it never shrinks, and afterwards the count is always
     * strictly below the size.
     */
    method Append(x: seq<real>, y: seq<real>, count: nat)
      requires Valid() && count <= |x| && count <= |y|
      modifies this
      ensures Valid()
      ensures Count() == old(Count()) + count
      ensures Xs() == old(Xs()) + x[..count]
      ensures Ys() == old(Ys()) + y[..count]
      ensures Size() == if GrownSize(Count()) > old(Size()) then GrownSize(Count()) else old(Size())
      ensures old(Size()) <= Size() && Count() < Size()
    {
      ghost var heldX, heldY := Xs(), Ys();
      var newSize := GrownSize(dataCount + count);
      if newSize > |dataX| {
        dataX := Resized(dataX, newSize);
        dataY := Resized(dataY, newSize);
      }
      assert dataX[..dataCount] == heldX && dataY[..dataCount] == heldY;
      var xs, ys := CopySamples(dataX, dataY, dataCount, x, y, count);
      assert xs[..dataCount + count] == heldX + x[..count];
      assert ys[..dataCount + count] == heldY + y[..count];
      dataX, dataY, dataCount := xs, ys, dataCount + count;
    }

    /**
     * The copying loop of append: writes x[i] and y[i] at position start + i
     * of the two buffers for every i below count.
     */
    static method CopySamples(bufX: seq<real>, bufY: seq<real>, start: nat, x: seq<real>, y: seq<real>, count: nat)
      returns (xs: seq<real>, ys: seq<real>)
      requires start + count <= |bufX| == |bufY| && count <= |x| && count <= |y|
      ensures |xs| == |bufX| && |ys| == |bufY|
      ensures xs[..start + count] == bufX[..start] + x[..count]
      ensures ys[..start + count] == bufY[..start] + y[..count]
    {
      xs, ys := bufX, bufY;
      for i := 0 to count
        invariant |xs| == |bufX| && |ys| == |bufY|
        invariant xs[..start + i] == bufX[..start] + x[..i]
        invariant ys[..start + i] == bufY[..start] + y[..i]
      {
        xs := xs[start + i := x[i]];
        ys := ys[start + i := y[i]];
        assert xs[..start + i + 1] == xs[..start + i] + [x[i]];
        assert ys[..start + i + 1] == ys[..start + i] + [y[i]];
        assert x[..i + 1] == x[..i] + [x[i]] && y[..i + 1] == y[..i] + [y[i]];
      }
    }

    /** Empties the curve: both the count and the storage size become 0. */
    method Clear()
      modifies this
      ensures Valid() && Count() == 0 && Size() == 0
    {
      dataCount := 0;
      dataX := [];
      dataY := [];
    }
  }
}
