/** The encoder event queue (Utils/CircleDeq.h): a fixed ring of 128 slots with
    two cursors. One slot always stays free, so it holds at most 127 values;
    pushing onto a full queue drops the oldest value. */
module CircleDeqs {
  const K_SIZE: nat := 128
  /** The most values the queue can hold: start == end means empty, so one slot is lost. */
  const CAPACITY: nat := K_SIZE - 1

  function Min(a: int, b: int): int { if a < b then a else b }

  /** The last `n` elements of `s` (all of them when there are fewer). */
  function LastN<T>(s: seq<T>, n: nat): (r: seq<T>)
    ensures |r| == Min(|s|, n)
  {
    s[|s| - Min(|s|, n)..]
  }

  /** What push_back does to the queue's contents, oldest first. */
  function Pushed<T>(s: seq<T>, x: T): (r: seq<T>)
    requires |s| <= CAPACITY
    ensures |r| <= CAPACITY
  {
    if |s| == CAPACITY then s[1..] + [x] else s + [x]
  }

  /** Contents after pushing every value of `xs` in order. */
  function PushAll<T>(s: seq<T>, xs: seq<T>): (r: seq<T>)
    requires |s| <= CAPACITY
    ensures |r| <= CAPACITY
    decreases |xs|
  {
    if xs == [] then s else PushAll(Pushed(s, xs[0]), xs[1..])
  }

  /** A push never fails: the value becomes the newest element, and the queue
      loses its oldest element exactly when it already held 127. */
  lemma PushedNewest<T>(s: seq<T>, x: T)
    requires |s| <= CAPACITY
    ensures |Pushed(s, x)| == Min(|s| + 1, CAPACITY)
    ensures Pushed(s, x)[|Pushed(s, x)| - 1] == x
    ensures Pushed(s, x) == LastN(s + [x], CAPACITY)
  {
  }

  lemma LastNOfLastN<T>(u: seq<T>, v: seq<T>, n: nat)
    ensures LastN(u + v, n) == LastN(LastN(u, n) + v, n)
  {
    var k := |u| - Min(|u|, n);
    assert u + v == u[..k] + (LastN(u, n) + v);
    var w := LastN(u, n) + v;
    assert (u + v)[|u + v| - Min(|u + v|, n)..] == w[|w| - Min(|w|, n)..];
  }

  /** Pushing any values onto a queue keeps exactly the newest 127 of
      everything it has seen, in push order. */
  lemma {:induction false} PushAllKeepsNewest<T>(s: seq<T>, xs: seq<T>)
    requires |s| <= CAPACITY
    ensures PushAll(s, xs) == LastN(s + xs, CAPACITY)
    decreases |xs|
  {
    if xs == [] {
      assert s + xs == s;
    } else {
      var s1 := Pushed(s, xs[0]);
      PushedNewest(s, xs[0]);
      PushAllKeepsNewest(s1, xs[1..]);
      assert s + xs == (s + [xs[0]]) + xs[1..];
      LastNOfLastN(s + [xs[0]], xs[1..], CAPACITY);
    }
  }

  /** Pushing n values into an empty queue leaves the last min(n, 127) of them. */
  lemma PushAllFromEmpty<T>(xs: seq<T>)
    ensures PushAll([], xs) == xs[|xs| - Min(|xs|, CAPACITY)..]
  {
    PushAllKeepsNewest([], xs);
    assert [] + xs == xs;
  }

  function Range(lo: int, hi: int): (r: seq<int>)
    requires lo <= hi
    ensures |r| == hi - lo
    ensures forall i :: 0 <= i < |r| ==> r[i] == lo + i
    decreases hi - lo
  {
    if lo == hi then [] else [lo] + Range(lo + 1, hi)
  }

  /** Pushing 0..n-1 into a fresh queue leaves n-127..n-1 once n reaches 127;
      for n = 150 that is 23..149. */
  lemma PushRange(n: nat)
    requires n >= CAPACITY
    ensures PushAll([], Range(0, n)) == Range(n - CAPACITY, n)
  {
    PushAllFromEmpty(Range(0, n));
    assert Range(0, n)[n - CAPACITY..] == Range(n - CAPACITY, n);
  }

  class CircleDeq<T> {
    var data: array<T>
    var start: int
    var end: int
    /** The value-initialised T{} that pop_front and front return when empty. */
    const blank: T
    /** The stored values, oldest first. */
    ghost var contents: seq<T>

    /** The cursors stay in the ring, and the i-th oldest value sits i slots
        after start. */
    ghost predicate Valid()
      reads this, data
    {
      data.Length == K_SIZE && 0 <= start < K_SIZE && 0 <= end < K_SIZE &&
      |contents| == Len() &&
      forall i :: 0 <= i < |contents| ==> contents[i] == data[Slot(i)]
    }

    /** Number of stored values. */
    ghost function Len(): (n: nat)
      reads this
      requires 0 <= start < K_SIZE && 0 <= end < K_SIZE
      ensures n <= CAPACITY
    {
      if start <= end then end - start else end - start + K_SIZE
    }

    /** Slot holding the i-th oldest value. */
    ghost function Slot(i: int): (k: int)
      reads this
      requires 0 <= start < K_SIZE && 0 <= i < K_SIZE
      ensures 0 <= k < K_SIZE
    {
      if start + i < K_SIZE then start + i else start + i - K_SIZE
    }

    ghost function Contents(): (s: seq<T>)
      reads this, data
      requires Valid()
      ensures |s| == Len()
    {
      contents
    }

    constructor (blank: T)
      ensures Valid() && fresh(data)
      ensures Contents() == [] && start == 0 && end == 0
      ensures this.blank == blank
    {
      this.blank := blank;
      data := new T[K_SIZE](_ => blank);
      start, end := 0, 0;
      contents := [];
    }

    method PushBack(x: T)
      requires Valid()
      modifies this, data
      ensures Valid() && data == old(data)
      ensures Contents() == Pushed(old(Contents()), x)
    {
      ghost var s := contents;
      data[end] := x;
      end := (end + 1) % K_SIZE;
      assert end == if old(end) + 1 == K_SIZE then 0 else old(end) + 1;
      if end == start {
        start := (start + 1) % K_SIZE;
        assert start == if old(start) + 1 == K_SIZE then 0 else old(start) + 1;
        assert |s| == CAPACITY;
        contents := s[1..] + [x];
        forall i | 0 <= i < |s| - 1
          ensures contents[i] == data[Slot(i)]
        {
          assert Slot(i) == old(Slot(i + 1));
        }
        assert Slot(|s| - 1) == old(end);
      } else {
        assert |s| < CAPACITY;
        contents := s + [x];
        forall i | 0 <= i < |s|
          ensures contents[i] == data[Slot(i)]
        {
          assert Slot(i) == old(Slot(i));
        }
        assert Slot(|s|) == old(end);
      }
    }

    method PopFront() returns (v: T)
      requires Valid()
      modifies this
      ensures Valid()
      ensures old(Contents()) == [] ==> v == blank && start == old(start) && end == old(end)
      ensures old(Contents()) != [] ==> v == old(Contents())[0] && Contents() == old(Contents())[1..]
    {
      if start == end {
        return blank;
      }
      ghost var s := contents;
      v := data[start];
      assert Slot(0) == start;
      start := (start + 1) % K_SIZE;
      assert start == if old(start) + 1 == K_SIZE then 0 else old(start) + 1;
      contents := s[1..];
      forall i | 0 <= i < |s| - 1
        ensures contents[i] == data[Slot(i)]
      {
        assert Slot(i) == old(Slot(i + 1));
      }
    }

    /** front(): reads the oldest value without removing it (a const member). */
    method Front() returns (v: T)
      requires Valid()
      ensures v == if Contents() == [] then blank else Contents()[0]
    {
      if start == end {
        return blank;
      }
      assert Slot(0) == start;
      v := data[start];
    }

    method Empty() returns (b: bool)
      requires Valid()
      ensures b <==> Contents() == []
      ensures b <==> start == end
    {
      b := start == end;
    }
  }
}
