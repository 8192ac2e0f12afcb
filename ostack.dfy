/** ostack_t (pipeline.h): a depth-bounded stack of fixed-size objects kept
    in one buffer, slot 0 being the top. The source moves whole objects with
    memmove; here a slot holds one object of type T and the moves are
    element loops. */
module ObjectStack {

  /** The stack contents, top first, after bubble(). */
  function BubbleSeq<T>(c: seq<T>): (r: seq<T>)
    ensures |r| == |c|
    ensures |c| >= 2 ==> r[0] == c[|c| - 1] && r[1..] == c[..|c| - 1]
    ensures |c| < 2 ==> r == c
  {
    if |c| < 2 then c else [c[|c| - 1]] + c[..|c| - 1]
  }

  /** The objects a replay of n bubble/top/pop steps is meant to produce:
      the n deepest entries, deepest first. */
  function Deepest<T>(c: seq<T>, n: nat): (r: seq<T>)
    requires n <= |c|
    ensures |r| == n && forall j :: 0 <= j < n ==> r[j] == c[|c| - 1 - j]
  {
    seq(n, j requires 0 <= j < n => c[|c| - 1 - j])
  }

  /** n steps of "bubble, take the top, pop" on a stack with contents c:
      the objects taken, and the contents left. */
  function ReplayRun<T>(c: seq<T>, n: nat): (seq<T>, seq<T>)
    requires n <= |c|
    decreases n
  {
    if n == 0 then ([], c)
    else
      var b := BubbleSeq(c);
      var rest := ReplayRun(b[1..], n - 1);
      ([b[0]] + rest.0, rest.1)
  }

  /** A replay takes the deepest entries, deepest first, and leaves the
      entries above them. */
  lemma {:induction false} ReplayTakesDeepest<T>(c: seq<T>, n: nat)
    requires n <= |c|
    ensures ReplayRun(c, n) == (Deepest(c, n), c[..|c| - n])
    decreases n
  {
    if n > 0 {
      var b := BubbleSeq(c);
      assert b[0] == c[|c| - 1];
      assert b[1..] == c[..|c| - 1];
      ReplayTakesDeepest(b[1..], n - 1);
      var rest := ReplayRun(b[1..], n - 1);
      assert ReplayRun(c, n) == ([b[0]] + rest.0, rest.1);
      assert rest.0 == Deepest(c[..|c| - 1], n - 1);
      assert [b[0]] + rest.0 == Deepest(c, n);
      assert rest.1 == c[..|c| - n];
    } else {
      assert |Deepest(c, 0)| == 0;
      assert c[..|c|] == c;
    }
  }

  /** One replay step on a stack whose k deepest entries are gone: bubble
      brings up entry |c| - 1 - k and leaves the entries above it. */
  lemma BubbleDeepest<T>(c: seq<T>, k: nat)
    requires k < |c|
    ensures BubbleSeq(c[..|c| - k])[0] == c[|c| - 1 - k]
    ensures BubbleSeq(c[..|c| - k])[1..] == c[..|c| - 1 - k]
  {
    var d := c[..|c| - k];
    if |d| < 2 {
      assert d[1..] == [];
    } else {
      assert d[..|d| - 1] == c[..|c| - 1 - k];
    }
  }

  class OStack<T(0)> {
    const depthMax: int
    const buf: array<T>
    var depth: int

    ghost predicate Valid()
      reads this
    {
      buf.Length == depthMax && 1 <= depthMax && 0 <= depth <= depthMax
    }

    /** The objects saved, top first. */
    function Contents(): seq<T>
      requires Valid()
      reads this, buf
    {
      buf[..depth]
    }

    /** ostack_t(os, n): an empty stack with room for n objects; the slots
        start out as `fill`. */
    constructor (n: int, fill: T)
      requires 1 <= n
      ensures Valid() && depthMax == n && depth == 0 && fresh(buf)
      ensures forall k :: 0 <= k < n ==> buf[k] == fill
    {
      depthMax := n;
      depth := 0;
      buf := new T[n](_ => fill);
    }

    /** get_depth() */
    method GetDepth() returns (d: int)
      requires Valid()
      ensures d == depth && 0 <= d <= depthMax
    {
      d := depth;
    }

    /** The object at slot k (k = 0 is get_top()). */
    method Get(k: int) returns (x: T)
      requires Valid() && 0 <= k < depthMax
      ensures x == buf[k]
    {
      x := buf[k];
    }

    /** A write through get_top(). */
    method SetTop(x: T)
      requires Valid()
      modifies buf
      ensures buf[..] == [x] + old(buf[1..])
      ensures Contents() == if depth == 0 then [] else [x] + old(Contents())[1..]
    {
      buf[0] := x;
    }

    /** push(): shift the saved objects one slot deeper, dropping the deepest
        one when the stack is full; slot 0 keeps its old object until the
        caller overwrites it. */
    method Push() returns (d: int)
      requires Valid()
      modifies this, buf
      ensures Valid() && d == depth
      ensures depth == if old(depth) == depthMax then old(depth) else old(depth) + 1
      ensures buf[..] == old(buf[..])[..1] + old(buf[..])[..depth - 1] + old(buf[..])[depth..]
      ensures Contents() == [old(buf[0])] + old(Contents())[..depth - 1]
    {
      if depth == 0 {
        depth := depth + 1;
        d := depth;
        return;
      }
      if depth == depthMax {
        depth := depth - 1;
      }
      var i := depth;
      while i > 0
        modifies buf
        invariant 0 <= i <= depth < buf.Length
        invariant forall k :: 0 <= k <= i ==> buf[k] == old(buf[k])
        invariant forall k :: i < k <= depth ==> buf[k] == old(buf[k - 1])
        invariant forall k :: depth < k < buf.Length ==> buf[k] == old(buf[k])
      {
        buf[i] := buf[i - 1];
        i := i - 1;
      }
      depth := depth + 1;
      d := depth;
      assert buf[..] == old(buf[..])[..1] + old(buf[..])[..depth - 1] + old(buf[..])[depth..];
    }

    /** pop(): remove the top object and shift the rest up; an empty stack
        answers -1 and is left alone. */
    method Pop() returns (d: int)
      requires Valid()
      modifies this, buf
      ensures Valid()
      ensures old(depth) == 0 ==> d == -1 && depth == 0 && buf[..] == old(buf[..])
      ensures old(depth) > 0 ==> d == depth == old(depth) - 1
      ensures old(depth) > 0 ==> Contents() == old(Contents())[1..]
      ensures buf[depth..] == old(buf[..])[depth..]
    {
      if depth == 0 {
        d := -1;
        return;
      }
      depth := depth - 1;
      if depth > 0 {
        var i := 0;
        while i < depth
          modifies buf
          invariant 0 <= i <= depth
          invariant forall k :: 0 <= k < i ==> buf[k] == old(buf[k + 1])
          invariant forall k :: i <= k < buf.Length ==> buf[k] == old(buf[k])
        {
          buf[i] := buf[i + 1];
          i := i + 1;
        }
      }
      d := depth;
      assert buf[..] == old(buf[..])[1..depth + 1] + old(buf[..])[depth..];
    }

    /** bubble(): move the deepest object to the top, the others one slot
        deeper in their order; below depth 2 nothing moves. */
    method Bubble() returns (d: int)
      requires Valid()
      modifies buf
      ensures d == depth
      ensures depth < 2 ==> buf[..] == old(buf[..])
      ensures Contents() == BubbleSeq(old(Contents()))
      ensures buf[depth..] == old(buf[depth..])
    {
      d := depth;
      if depth < 2 {
        return;
      }
      var tmp := buf[depth - 1];
      var i := depth - 1;
      while i > 0
        modifies buf
        invariant 0 <= i <= depth - 1
        invariant forall k :: 0 <= k <= i ==> buf[k] == old(buf[k])
        invariant forall k :: i < k < depth ==> buf[k] == old(buf[k - 1])
        invariant forall k :: depth <= k < buf.Length ==> buf[k] == old(buf[k])
      {
        buf[i] := buf[i - 1];
        i := i - 1;
      }
      buf[0] := tmp;
      assert buf[..] == [old(buf[..])[depth - 1]] + old(buf[..])[..depth - 1] + old(buf[..])[depth..];
    }
  }
}
