/**
 * A fixed-capacity stack kept in a ring buffer (src/FSAStack.c).
 *
 * The retained entries are `Contents`, oldest first. Pushing onto a full
 * stack overwrites the oldest entry, so at most `capacity` entries can ever
 * be popped back. Slots are element-indexed; the byte-level storage of the
 * source is modelled separately at the end of this module.
 */
module FsaStack {
  import opened Options

  // ---------------------------------------------------------------------------
  // Abstract behaviour on the retained contents (oldest first)
  // ---------------------------------------------------------------------------

  /** The contents after pushing `x`: the oldest entry is evicted when full. */
  function Pushed<T>(c: seq<T>, x: T, capacity: nat): seq<T>
    requires 0 < capacity && |c| <= capacity
  {
    if |c| == capacity then c[1..] + [x] else c + [x]
  }

  /** The entry a pop returns and the contents left behind. */
  function Popped<T>(c: seq<T>): (r: (Option<T>, seq<T>))
    ensures |r.1| == if c == [] then 0 else |c| - 1
  {
    if c == [] then (None, c) else (Some(c[|c| - 1]), c[..|c| - 1])
  }

  /** The contents after pushing every element of `xs` in order. */
  function PushedAll<T>(c: seq<T>, xs: seq<T>, capacity: nat): (r: seq<T>)
    requires 0 < capacity && |c| <= capacity
    ensures |r| <= capacity
    decreases |xs|
  {
    if xs == [] then c else PushedAll(Pushed(c, xs[0], capacity), xs[1..], capacity)
  }

  /** The entries returned by popping until the stack is empty. */
  function Drained<T>(c: seq<T>): seq<T>
    decreases |c|
  {
    match Popped(c)
    case (None, _) => []
    case (Some(x), rest) => [x] + Drained(rest)
  }

  /** The last `n` elements of `s` (all of them when `s` is shorter). */
  function LastN<T>(s: seq<T>, n: nat): (r: seq<T>)
    ensures |r| == if |s| < n then |s| else n
  {
    if |s| <= n then s else s[|s| - n..]
  }

  function Reverse<T>(s: seq<T>): (r: seq<T>)
    ensures |r| == |s|
  {
    if s == [] then [] else Reverse(s[1..]) + [s[0]]
  }

  /** A push followed by a pop returns the pushed entry and otherwise only
      loses the evicted oldest entry. */
  lemma PushThenPop<T>(c: seq<T>, x: T, capacity: nat)
    requires 0 < capacity && |c| <= capacity
    ensures Popped(Pushed(c, x, capacity)).0 == Some(x)
    ensures Popped(Pushed(c, x, capacity)).1 == if |c| == capacity then c[1..] else c
  {
    var p := Pushed(c, x, capacity);
    assert p[..|p| - 1] == if |c| == capacity then c[1..] else c;
  }

  /** A push never lets the contents exceed the capacity and always retains
      the pushed entry as the newest. */
  lemma PushedBounded<T>(c: seq<T>, x: T, capacity: nat)
    requires 0 < capacity && |c| <= capacity
    ensures |Pushed(c, x, capacity)| <= capacity
    ensures |Pushed(c, x, capacity)| == if |c| == capacity then capacity else |c| + 1
    ensures Pushed(c, x, capacity) == LastN(c + [x], capacity)
  {
    if |c| == capacity {
      assert (c + [x])[|c + [x]| - capacity..] == c[1..] + [x];
    }
  }

  lemma LastNOfLastN<T>(s: seq<T>, t: seq<T>, n: nat)
    ensures LastN(LastN(s, n) + t, n) == LastN(s + t, n)
  {
    if |s| > n {
      var k := |s| - n;
      assert s + t == s[..k] + (s[k..] + t);
      if |s[k..] + t| > n {
        assert (s + t)[|s + t| - n..] == (s[k..] + t)[|s[k..] + t| - n..];
      }
    }
  }

  /** Pushing a sequence of entries retains exactly the last `capacity`
      of them (together with what was there before), oldest first. */
  lemma {:induction false} PushedAllKeepsNewest<T>(c: seq<T>, xs: seq<T>, capacity: nat)
    requires 0 < capacity && |c| <= capacity
    ensures PushedAll(c, xs, capacity) == LastN(c + xs, capacity)
    decreases |xs|
  {
    if xs == [] {
      assert c + xs == c;
    } else {
      var c' := Pushed(c, xs[0], capacity);
      PushedBounded(c, xs[0], capacity);
      PushedAllKeepsNewest(c', xs[1..], capacity);
      LastNOfLastN(c + [xs[0]], xs[1..], capacity);
      assert c + [xs[0]] + xs[1..] == c + xs;
    }
  }

  /** Popping until empty yields the contents newest first. */
  lemma {:induction false} DrainedIsReverse<T>(c: seq<T>)
    ensures Drained(c) == Reverse(c)
    decreases |c|
  {
    if c != [] {
      var front := c[..|c| - 1];
      DrainedIsReverse(front);
      ReverseSnoc(front, c[|c| - 1]);
      assert front + [c[|c| - 1]] == c;
    }
  }

  lemma {:induction false} ReverseSnoc<T>(s: seq<T>, x: T)
    ensures Reverse(s + [x]) == [x] + Reverse(s)
    decreases |s|
  {
    if s != [] {
      assert (s + [x])[1..] == s[1..] + [x];
      ReverseSnoc(s[1..], x);
    } else {
      assert s + [x] == [x];
    }
  }

  /** The history boundary: after `capacity + 1` pushes onto an empty stack,
      popping everything yields the last `capacity` entries, newest first,
      and the very first entry is gone. */
  lemma OverflowLosesOldest<T>(xs: seq<T>, capacity: nat)
    requires 0 < capacity && |xs| == capacity + 1
    ensures PushedAll([], xs, capacity) == xs[1..]
    ensures Drained(PushedAll([], xs, capacity)) == Reverse(xs[1..])
    ensures |Drained(PushedAll([], xs, capacity))| == capacity
  {
    PushedAllKeepsNewest([], xs, capacity);
    assert [] + xs == xs;
    DrainedIsReverse(xs[1..]);
  }

  /** `a % n` for `0 <= a < 2 * n`, written without the modulus. */
  function Wrap(a: nat, n: nat): (r: nat)
    requires a < 2 * n
    ensures r < n
  {
    if a < n then a else a - n
  }

  lemma WrapIsMod(a: nat, n: nat)
    requires a < 2 * n
    ensures Wrap(a, n) == a % n
  {
  }

  // ---------------------------------------------------------------------------
  // The ring buffer itself
  // ---------------------------------------------------------------------------

  class Stack<T(0)> {
    ghost var Contents: seq<T>
    ghost var Repr: set<object>

    var elements: array<T>
    var capacity: nat
    var startIndex: nat
    var size: nat

    ghost predicate Valid()
      reads this, Repr
      ensures Valid() ==> this in Repr
    {
      && Repr == {this, elements}
      && elements.Length == capacity
      && size <= capacity
      && (if capacity == 0 then startIndex == 0 else startIndex < capacity)
      && |Contents| == size
      && forall k :: 0 <= k < size ==> Contents[k] == elements[Wrap(startIndex + k, capacity)]
    }

    /** FSAStack_Create: an empty stack of the given capacity. */
    constructor Create(capacity: nat)
      ensures Valid() && fresh(Repr)
      ensures this.capacity == capacity && Contents == []
      ensures size == 0 && startIndex == 0
    {
      elements := new T[capacity];
      this.capacity := capacity;
      startIndex, size := 0, 0;
      Contents := [];
      Repr := {this, elements};
    }

    /** FSAStack_IsFull */
    method IsFull() returns (full: bool)
      requires Valid()
      ensures full <==> |Contents| == capacity
    {
      full := size == capacity;
    }

    /** FSAStack_IsEmpty */
    method IsEmpty() returns (empty: bool)
      requires Valid()
      ensures empty <==> Contents == []
    {
      empty := size == 0;
    }

    /** FSAStack_Push: write into slot (startIndex + size) % capacity; when
        full that slot is the oldest entry, and startIndex moves past it. */
    method Push(x: T)
      requires Valid() && 0 < capacity
      modifies Repr
      ensures Valid() && Repr == old(Repr) && capacity == old(capacity)
      ensures Contents == Pushed(old(Contents), x, capacity)
      ensures old(size) < capacity ==> size == old(size) + 1 && startIndex == old(startIndex)
      ensures old(size) == capacity ==>
                size == capacity && startIndex == (old(startIndex) + 1) % capacity
    {
      var full := IsFull();
      var offset := (startIndex + size) % capacity;
      WrapIsMod(startIndex + size, capacity);
      ghost var was := Contents;
      ghost var start := startIndex;
      elements[offset] := x;
      if full {
        WrapIsMod(startIndex + 1, capacity);
        startIndex := (startIndex + 1) % capacity;
        Contents := was[1..] + [x];
        forall k | 0 <= k < size
          ensures Contents[k] == elements[Wrap(startIndex + k, capacity)]
        {
          if k + 1 < size {
            assert Wrap(startIndex + k, capacity) == Wrap(start + k + 1, capacity);
          } else {
            assert Wrap(startIndex + k, capacity) == start;
          }
        }
      } else {
        size := size + 1;
        Contents := was + [x];
        forall k | 0 <= k < size
          ensures Contents[k] == elements[Wrap(startIndex + k, capacity)]
        {
          if k < size - 1 {
            assert Wrap(start + k, capacity) != offset;
          }
        }
      }
    }

    /** FSAStack_Pop: None on an empty stack; otherwise the newest entry,
        found in slot (startIndex + size - 1) % capacity. */
    method Pop() returns (top: Option<T>)
      requires Valid()
      modifies this
      ensures Valid() && Repr == old(Repr) && elements == old(elements) && capacity == old(capacity)
      ensures (top, Contents) == Popped(old(Contents))
      ensures startIndex == old(startIndex)
      ensures size == if old(size) == 0 then 0 else old(size) - 1
    {
      var empty := IsEmpty();
      if empty {
        return None;
      }
      size := size - 1;
      var offset := (startIndex + size) % capacity;
      WrapIsMod(startIndex + size, capacity);
      top := Some(elements[offset]);
      Contents := Contents[..size];
    }
  }

  // ---------------------------------------------------------------------------
  // The storage as written: a byte buffer indexed by slot number
  // ---------------------------------------------------------------------------

  /** The source's buffer is `capacity * elementSize` bytes, but a slot index
      is added to the byte pointer without scaling by `elementSize`. */
  datatype ByteStack = ByteStack(bytes: seq<int>, elementSize: nat, capacity: nat, startIndex: nat, size: nat)

  function ByteOffset(s: ByteStack): nat
    requires 0 < s.capacity
  {
    (s.startIndex + s.size) % s.capacity
  }

  /** FSAStack_Push as written: copies `elementSize` bytes to byte offset
      `(startIndex + size) % capacity`. */
  function BytePush(s: ByteStack, data: seq<int>): (r: ByteStack)
    requires 0 < s.capacity && |data| == s.elementSize
    requires s.capacity - 1 + s.elementSize <= |s.bytes|
    ensures |r.bytes| == |s.bytes| && r.capacity == s.capacity && r.elementSize == s.elementSize
  {
    var offset := ByteOffset(s);
    var bytes := seq(|s.bytes|, i requires 0 <= i < |s.bytes| =>
                     if offset <= i < offset + s.elementSize then data[i - offset] else s.bytes[i]);
    if s.size == s.capacity then s.(bytes := bytes, startIndex := (s.startIndex + 1) % s.capacity)
    else s.(bytes := bytes, size := s.size + 1)
  }

  /** FSAStack_Pop as written, reading `elementSize` bytes at the byte offset. */
  function BytePop(s: ByteStack): (Option<seq<int>>, ByteStack)
    requires 0 < s.capacity && s.size <= s.capacity
    requires s.capacity - 1 + s.elementSize <= |s.bytes|
  {
    if s.size == 0 then (None, s)
    else
      var t := s.(size := s.size - 1);
      var offset := ByteOffset(t);
      (Some(s.bytes[offset..offset + s.elementSize]), t)
  }

  /** Two-byte entries in a two-entry stack: the second push overwrites the
      second byte of the first entry, so the first entry cannot be popped
      back, whereas the element-indexed `Stack` returns both entries. */
  lemma ByteOffsetsOverlap()
    ensures var s0 := ByteStack([0, 0, 0, 0], 2, 2, 0, 0);
            var s2 := BytePush(BytePush(s0, [1, 2]), [3, 4]);
            var (newest, s3) := BytePop(s2);
            var (oldest, _) := BytePop(s3);
            newest == Some([3, 4]) && oldest == Some([1, 3]) && oldest != Some([1, 2])
  {
    var s0 := ByteStack([0, 0, 0, 0], 2, 2, 0, 0);
    var s1 := BytePush(s0, [1, 2]);
    assert s1 == ByteStack([1, 2, 0, 0], 2, 2, 0, 1);
    var s2 := BytePush(s1, [3, 4]);
    assert s2 == ByteStack([1, 3, 4, 0], 2, 2, 0, 2);
    assert s2.bytes[1..3] == [3, 4];
    assert BytePop(s2) == (Some([3, 4]), s2.(size := 1));
    assert s2.bytes[0..2] == [1, 3];
    assert BytePop(s2.(size := 1)) == (Some([1, 3]), s2.(size := 0));
  }
}
