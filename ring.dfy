/** The fixed-capacity ring buffer of cmd/internal/ring: a backing array with
    a `head` cursor (oldest element) and a `tail` cursor (next write), and no
    occupancy counter. Writes overwrite old data; reads wrap around.

    The pure functions over `State` describe each operation's effect; the
    class `Buffer` performs it in place and is proved against them. */
module Ring {
  import opened Wire

  /** A snapshot of a buffer: its backing store and its two cursors. */
  datatype State<T> = State(data: seq<T>, head: int, tail: int)

  /** Both cursors lie within the backing store; either may equal its length. */
  predicate WellFormed<T>(s: State<T>)
  {
    0 <= s.head <= |s.data| && 0 <= s.tail <= |s.data|
  }

  /** The elements `CopyTo` hands out, oldest first. When `head == tail` the
      whole backing store is handed out, starting at `head`. */
  function Stored<T>(s: State<T>): seq<T>
    requires WellFormed(s)
  {
    if s.head < s.tail then s.data[s.head..s.tail]
    else s.data[s.head..] + s.data[..s.tail]
  }

  /** The elements `Len` counts: as `Stored`, except that `head == tail`
      counts as empty. */
  function Live<T>(s: State<T>): seq<T>
    requires WellFormed(s)
  {
    if s.head == s.tail then [] else Stored(s)
  }

  /** The state `NewBuffer(n)` creates: `n` zero values, both cursors at 0. */
  function Fresh<T>(n: nat, zero: T): State<T>
  {
    State(seq(n, _ => zero), 0, 0)
  }

  /** The state after `Write(src)`. */
  function AfterWrite<T>(s: State<T>, src: seq<T>): State<T>
    requires WellFormed(s)
  {
    var size := |s.data|;
    if |src| >= size then
      // the last `size` elements replace everything
      State(src[|src| - size..], 0, size)
    else
      var n := Min(|src|, size - s.tail);
      if |src| <= n then
        // fits before the physical end; head is never moved here
        State(s.data[..s.tail] + src + s.data[s.tail + |src|..], s.head, s.tail + |src|)
      else
        // fills up to the end, then continues at index 0
        var k := |src| - n;
        State(src[n..] + s.data[k..s.tail] + src[..n], if k > s.head then k else s.head, k)
  }

  /** The state after `Advance(n)`. */
  function AfterAdvance<T>(s: State<T>, n: nat): State<T>
  {
    if s.head < s.tail then
      s.(head := s.head + Min(n, s.tail - s.head))
    else
      var front := |s.data| - s.head;
      if n <= front then s.(head := s.head + n) else s.(head := n - front)
  }

  // -----------------------------------------------------------------------
  // The in-place implementation

  /** The first `n1 + n2` stored elements of a wrapped or full buffer are
      `n1` elements from `head` on, then `n2` from index 0. */
  lemma StoredPrefix<T>(s: State<T>, n1: nat, n2: nat)
    requires WellFormed(s) && s.head >= s.tail
    requires n1 <= |s.data| - s.head && n2 <= s.tail && (n2 > 0 ==> n1 == |s.data| - s.head)
    ensures Stored(s)[..n1 + n2] == s.data[s.head..s.head + n1] + s.data[..n2]
  {
  }

  /** How much of each part a wrapped `CopyTo` into `m` slots takes. */
  lemma CopyPlan<T>(s: State<T>, m: nat, n1: nat, n2: nat)
    requires WellFormed(s) && s.head >= s.tail
    requires n1 == Min(m, |s.data| - s.head) && n2 == Min(m - n1, s.tail)
    ensures n1 + n2 == Min(m, |Stored(s)|)
    ensures Stored(s)[..n1 + n2] == s.data[s.head..s.head + n1] + s.data[..n2]
  {
    StoredPrefix(s, n1, n2);
  }

  /** Two copies side by side from the start of `orig`. */
  lemma TwoCopies<T>(orig: seq<T>, first: seq<T>, second: seq<T>, mid: seq<T>, fin: seq<T>)
    requires |first| + |second| <= |orig|
    requires mid == orig[..0] + first + orig[|first|..]
    requires fin == mid[..|first|] + second + mid[|first| + |second|..]
    ensures fin == first + second + orig[|first| + |second|..]
  {
    assert mid[..|first|] == first;
    assert mid[|first| + |second|..] == orig[|first| + |second|..];
  }

  class Buffer<T(0)> {
    const data: array<T>
    var head: int
    var tail: int

    ghost predicate Valid()
      reads this
    {
      0 <= head <= data.Length && 0 <= tail <= data.Length
    }

    ghost function Snapshot(): State<T>
      reads this, data
    {
      State(data[..], head, tail)
    }

    /** `NewBuffer(n)`. Go fills the slots with the zero value of `T`, which
        is passed here as `zero`. */
    constructor (n: nat, zero: T)
      ensures Valid() && fresh(data)
      ensures Snapshot() == Fresh(n, zero)
    {
      data := new T[n](_ => zero);
      head, tail := 0, 0;
    }

    /** The number of elements the buffer reports holding. */
    function Len(): (r: int)
      reads this, data
      ensures Valid() ==> 0 <= r <= data.Length
      ensures Valid() ==> r == |Live(Snapshot())|
      ensures head == tail ==> r == 0
    {
      if head <= tail then tail - head else data.Length - head + tail
    }

    /** The capacity of the backing store, which bounds both cursors. */
    function Size(): (n: nat)
      reads this, data
      ensures n == |Snapshot().data|
      ensures Valid() ==> head <= n && tail <= n
    {
      data.Length
    }

    method Write(src: seq<T>)
      requires Valid()
      modifies this, data
      ensures Valid()
      ensures Snapshot() == AfterWrite(old(Snapshot()), src)
    {
      var size := data.Length;
      if |src| >= size {
        FullState(Snapshot(), src);
        head, tail := 0, size;
        CopyInto(data, 0, src[|src| - size..]);
        assert data[..] == src[|src| - size..];
        return;
      }
      if |src| <= size - tail {
        FitState(Snapshot(), src);
        CopyInto(data, tail, src);
        tail := tail + |src|;
        return;
      }
      WriteAcross(src);
    }

    /** The branch of `Write` that fills the store up to its end and goes
        on at index 0. */
    method WriteAcross(src: seq<T>)
      requires Valid() && |src| < data.Length && tail + |src| > data.Length
      modifies this, data
      ensures Valid()
      ensures Snapshot() == AfterWrite(old(Snapshot()), src)
    {
      ghost var was := Snapshot();
      var n := data.Length - tail;
      CopyInto(data, tail, src[..n]);
      ghost var mid := data[..];
      WrapData(was, src, mid);
      tail := |src| - n;
      CopyInto(data, 0, src[n..]);
      if tail > head {
        head := tail;
      }
    }

    /** Copies the stored elements, oldest first, into `dst` as far as it
        has room; the buffer itself is left as it was. */
    method CopyTo(dst: array<T>) returns (n: int)
      requires Valid() && dst != data
      modifies dst
      ensures n == Min(dst.Length, |Stored(Snapshot())|)
      ensures dst[..] == Stored(Snapshot())[..n] + old(dst[n..])
    {
      if head < tail {
        n := Min(dst.Length, tail - head);
        var part := data[head..head + n];
        assert part == Stored(Snapshot())[..n];
        CopyInto(dst, 0, part);
      } else {
        n := CopyWrapped(dst);
      }
    }

    /** `CopyTo` when `head >= tail`: the part from `head` to the end, then
        the part before `tail`. */
    method CopyWrapped(dst: array<T>) returns (n: int)
      requires Valid() && dst != data && head >= tail
      modifies dst
      ensures n == Min(dst.Length, |Stored(Snapshot())|)
      ensures dst[..] == Stored(Snapshot())[..n] + old(dst[n..])
    {
      ghost var s := Snapshot();
      var n1 := Min(dst.Length, data.Length - head);
      var n2 := Min(dst.Length - n1, tail);
      n := n1 + n2;
      CopyPlan(s, dst.Length, n1, n2);
      var first := data[head..head + n1];
      var second := data[..n2];
      assert first + second == Stored(s)[..n];
      ghost var orig := dst[..];
      CopyInto(dst, 0, first);
      ghost var between := dst[..];
      CopyInto(dst, n1, second);
      TwoCopies(orig, first, second, between, dst[..]);
      assert Snapshot() == s;
    }

    method Advance(n: nat)
      requires Valid()
      modifies this
      ensures Snapshot() == AfterAdvance(old(Snapshot()), n)
    {
      if head < tail {
        head := head + Min(n, tail - head);
        return;
      }
      var front := data.Length - head;
      if n <= front {
        head := head + n;
        return;
      }
      head := n - front;
    }

    /** `CopyTo` followed by `Advance` of the count copied. */
    method Read(dst: array<T>) returns (n: int)
      requires Valid() && dst != data
      modifies this, dst
      ensures Valid()
      ensures n == Min(dst.Length, |Stored(old(Snapshot()))|)
      ensures dst[..] == Stored(old(Snapshot()))[..n] + old(dst[n..])
      ensures Snapshot() == AfterAdvance(old(Snapshot()), n)
    {
      n := CopyTo(dst);
      AdvanceUpToStoredKeepsWellFormed(Snapshot(), n);
      Advance(n);
    }
  }

  /** The state after a wrapping write, given the store `mid` once the
      first part of `src` has filled it up to its end: the rest of `src`
      goes to the front of `mid`. */
  lemma WrapData<T>(s: State<T>, src: seq<T>, mid: seq<T>)
    requires WellFormed(s) && |src| < |s.data| && s.tail + |src| > |s.data|
    requires mid == s.data[..s.tail] + src[..|s.data| - s.tail] + s.data[|s.data|..]
    ensures var k := |src| - (|s.data| - s.tail);
      AfterWrite(s, src) == State(mid[..0] + src[|s.data| - s.tail..] + mid[k..], if k > s.head then k else s.head, k)
  {
    var n := |s.data| - s.tail;
    assert mid[|src| - n..] == s.data[|src| - n..s.tail] + src[..n];
  }

  // -----------------------------------------------------------------------
  // Advance

  /** Advancing by at most the stored count keeps both cursors in range. */
  lemma AdvanceUpToStoredKeepsWellFormed<T>(s: State<T>, n: nat)
    requires WellFormed(s) && n <= |Stored(s)|
    ensures WellFormed(AfterAdvance(s, n))
  {
  }

  /** In the unwrapped state `head` stops at `tail` and `tail` stays put. */
  lemma AdvanceNeverPassesTail<T>(s: State<T>, n: nat)
    requires WellFormed(s) && s.head < s.tail
    ensures AfterAdvance(s, n).head == s.head + Min(n, s.tail - s.head) <= s.tail
    ensures AfterAdvance(s, n).tail == s.tail && AfterAdvance(s, n).data == s.data
  {
  }

  /** Advancing by fewer than the stored count discards exactly the `n`
      oldest elements. */
  lemma AdvanceDiscardsOldest<T>(s: State<T>, n: nat)
    requires WellFormed(s) && n < |Stored(s)|
    ensures WellFormed(AfterAdvance(s, n))
    ensures Stored(AfterAdvance(s, n)) == Stored(s)[n..]
  {
    var t := AfterAdvance(s, n);
    var size := |s.data|;
    if s.head < s.tail {
      assert t.head == s.head + n < s.tail;
    } else if n <= size - s.head {
      assert t.head >= s.tail;
      assert s.data[s.head..][n..] == s.data[t.head..];
    } else {
      var m := n - (size - s.head);
      assert t.head == m < s.tail;
      assert Stored(s)[n..] == s.data[..s.tail][m..];
    }
  }

  /** Advancing by exactly the stored count leaves `head == tail`: `Len`
      then reports 0, yet `CopyTo` hands out the whole backing store again. */
  lemma AdvanceDrainedLooksFull<T>(s: State<T>)
    requires WellFormed(s) && s.tail > 0
    ensures AfterAdvance(s, |Stored(s)|).head == s.tail
    ensures |Live(AfterAdvance(s, |Stored(s)|))| == 0
    ensures |Stored(AfterAdvance(s, |Stored(s)|))| == |s.data|
  {
  }

  /** In the wrapped or full state nothing clamps `head`: advancing by more
      than one full turn past it puts `head` outside the backing store. */
  lemma AdvancePastWrapLeavesRange<T>(s: State<T>, n: nat)
    requires WellFormed(s) && s.head >= s.tail
    ensures WellFormed(AfterAdvance(s, n)) <==> n <= 2 * |s.data| - s.head
  {
  }

  // -----------------------------------------------------------------------
  // Write

  /** A write at least as long as the store keeps its last `Size()` elements. */
  lemma WriteWholeStore<T>(s: State<T>, src: seq<T>)
    requires WellFormed(s) && |src| >= |s.data|
    ensures AfterWrite(s, src) == State(src[|src| - |s.data|..], 0, |s.data|)
    ensures WellFormed(AfterWrite(s, src))
    ensures Stored(AfterWrite(s, src)) == src[|src| - |s.data|..]
  {
  }

  /** A write that fits before the physical end stores `src` at `tail`,
      advances `tail` by its length and never moves `head`, even when it
      overwrites the slot `head` points at. */
  lemma WriteBeforeEnd<T>(s: State<T>, src: seq<T>)
    requires WellFormed(s) && |src| < |s.data| && s.tail + |src| <= |s.data|
    ensures AfterWrite(s, src).data[s.tail..s.tail + |src|] == src
    ensures AfterWrite(s, src).tail == s.tail + |src| && AfterWrite(s, src).head == s.head
    ensures forall i :: 0 <= i < |s.data| && !(s.tail <= i < s.tail + |src|) ==>
      AfterWrite(s, src).data[i] == s.data[i]
  {
  }

  /** A write that runs past the physical end fills up to the end, continues
      with the remaining `k` elements at index 0, sets `tail` to `k`, and
      moves `head` to `k` only when `k` is beyond it. */
  lemma WriteAcrossEnd<T>(s: State<T>, src: seq<T>)
    requires WellFormed(s) && |src| < |s.data| && s.tail + |src| > |s.data|
    ensures var k := s.tail + |src| - |s.data|;
      var t := AfterWrite(s, src);
      t.data[s.tail..] == src[..|s.data| - s.tail] &&
      t.data[..k] == src[|s.data| - s.tail..] &&
      t.data[k..s.tail] == s.data[k..s.tail] &&
      t.tail == k && t.head == (if k > s.head then k else s.head)
  {
  }

  /** `Write` keeps every cursor in range. */
  lemma WriteKeepsWellFormed<T>(s: State<T>, src: seq<T>)
    requires WellFormed(s)
    ensures WellFormed(AfterWrite(s, src))
  {
  }

  /** What a write promises about contents: with `w` the elements counted
      before the write followed by `src`, the buffer afterwards counts
      exactly `w` if that fits, and otherwise hands out the newest `Size()`
      elements of `w`. The elements before the write are counted as `Len`
      counts them, so a full buffer with `head == tail` counts as empty
      (see `FullCountsAsEmpty`). */
  ghost predicate KeepsNewest<T>(s: State<T>, src: seq<T>, t: State<T>)
    requires WellFormed(s)
  {
    var w := Live(s) + src;
    WellFormed(t) &&
    (|w| < |s.data| ==> Live(t) == w) &&
    (|w| >= |s.data| ==> Stored(t) == w[|w| - |s.data|..])
  }

  /** A write that runs past `head` of a wrapped buffer (`head > tail`). */
  predicate OverrunsWrapped<T>(s: State<T>, src: seq<T>)
  {
    s.head > s.tail && s.head - s.tail < |src| < |s.data|
  }

  /** `Write` keeps the newest of the elements `Len` counts and the new
      ones, except for a write that runs past `head` of a wrapped buffer
      (see `WrappedOverrunKeepsOnlyNew`). */
  lemma WriteKeepsNewest<T>(s: State<T>, src: seq<T>)
    requires WellFormed(s) && !OverrunsWrapped(s, src)
    ensures KeepsNewest(s, src, AfterWrite(s, src))
  {
    var size := |s.data|;
    if |src| >= size {
      var w := Live(s) + src;
      assert w[|w| - size..] == src[|src| - size..];
    } else if s.tail + |src| <= size {
      if s.head <= s.tail {
        KeepsNewestBeforeEndUnwrapped(s, src);
      } else {
        KeepsNewestBeforeEndWrapped(s, src);
      }
    } else if s.head < s.tail && s.tail + |src| - size > s.head {
      KeepsNewestAcrossEndEvicting(s, src);
    } else {
      KeepsNewestAcrossEndKeepingHead(s, src);
    }
  }

  lemma KeepsNewestBeforeEndUnwrapped<T>(s: State<T>, src: seq<T>)
    requires WellFormed(s) && |src| < |s.data| && s.tail + |src| <= |s.data|
    requires s.head <= s.tail
    ensures KeepsNewest(s, src, AfterWrite(s, src))
  {
    var t := AfterWrite(s, src);
    var d := s.data[..s.tail] + src + s.data[s.tail + |src|..];
    assert t == State(d, s.head, s.tail + |src|);
    if |src| > 0 {
      assert Live(t) == d[s.head..s.tail + |src|];
      assert d[s.head..s.tail + |src|] == s.data[s.head..s.tail] + src;
      if s.head < s.tail {
        assert Live(s) == s.data[s.head..s.tail];
      } else {
        assert Live(s) == [] == s.data[s.head..s.tail];
      }
    }
  }

  lemma KeepsNewestBeforeEndWrapped<T>(s: State<T>, src: seq<T>)
    requires WellFormed(s) && |src| < |s.data| && s.tail + |src| <= |s.data|
    requires s.head > s.tail && s.tail + |src| <= s.head
    ensures KeepsNewest(s, src, AfterWrite(s, src))
  {
    var e := s.tail + |src|;
    var d := s.data[..s.tail] + src + s.data[e..];
    assert AfterWrite(s, src) == State(d, s.head, e);
    SpliceWindow(s.data, s.tail, src, s.head);
    assert Stored(State(d, s.head, e)) == s.data[s.head..] + s.data[..s.tail] + src;
  }

  /** The store after a write that fits before the end, seen from a `head`
      at or past the written part. */
  lemma SpliceWindow<T>(a: seq<T>, tail: nat, src: seq<T>, head: nat)
    requires tail + |src| <= head <= |a|
    ensures var d := a[..tail] + src + a[tail + |src|..];
      d[head..] == a[head..] && d[..tail + |src|] == a[..tail] + src
  {
  }

  lemma KeepsNewestAcrossEndEvicting<T>(s: State<T>, src: seq<T>)
    requires WellFormed(s) && |src| < |s.data| && s.tail + |src| > |s.data|
    requires s.head < s.tail && s.tail + |src| - |s.data| > s.head
    ensures KeepsNewest(s, src, AfterWrite(s, src))
  {
    var n := |s.data| - s.tail;
    var k := |src| - n;
    var d := src[n..] + s.data[k..s.tail] + src[..n];
    WrapState(s, src);
    var t := State(d, k, k);
    WrapWindow(s.data, s.tail, src, k);
    assert Stored(t) == s.data[k..s.tail] + src;
    assert Live(s) == s.data[s.head..s.tail];
    assert Live(s)[k - s.head..] == s.data[k..s.tail];
    KeptNewest(s, src, t, k - s.head);
  }

  lemma KeepsNewestAcrossEndKeepingHead<T>(s: State<T>, src: seq<T>)
    requires WellFormed(s) && |src| < |s.data| && s.tail + |src| > |s.data|
    requires s.head <= s.tail && s.tail + |src| - |s.data| <= s.head
    ensures KeepsNewest(s, src, AfterWrite(s, src))
  {
    var n := |s.data| - s.tail;
    var k := |src| - n;
    var d := src[n..] + s.data[k..s.tail] + src[..n];
    WrapState(s, src);
    var t := State(d, s.head, k);
    WrapWindow(s.data, s.tail, src, s.head);
    assert Stored(t) == s.data[s.head..s.tail] + src;
    assert Live(s) == s.data[s.head..s.tail];
    KeptAll(s, src, t);
  }

  /** A write after which the buffer hands out everything it counted and
      everything written, counting it as empty only when that fills it. */
  lemma KeptAll<T>(s: State<T>, src: seq<T>, t: State<T>)
    requires WellFormed(s) && WellFormed(t)
    requires Stored(t) == Live(s) + src && |Live(s) + src| <= |s.data|
    requires t.head == t.tail ==> |Live(s) + src| == |s.data|
    ensures KeepsNewest(s, src, t)
  {
  }

  /** A write after which the buffer hands out the newest `Size()`
      elements of what it counted followed by what was written. */
  lemma KeptNewest<T>(s: State<T>, src: seq<T>, t: State<T>, j: nat)
    requires WellFormed(s) && WellFormed(t)
    requires j <= |Live(s)| && |Live(s)| - j + |src| == |s.data|
    requires Stored(t) == Live(s)[j..] + src
    ensures KeepsNewest(s, src, t)
  {
    NewestOfJoin(Live(s), src, j);
  }

  /** The state after a write at least as long as the store. */
  lemma FullState<T>(s: State<T>, src: seq<T>)
    requires WellFormed(s) && |src| >= |s.data|
    ensures AfterWrite(s, src) == State(src[|src| - |s.data|..], 0, |s.data|)
  {
  }

  /** The state after a shorter write that fits before the physical end. */
  lemma FitState<T>(s: State<T>, src: seq<T>)
    requires WellFormed(s) && |src| < |s.data| && s.tail + |src| <= |s.data|
    ensures AfterWrite(s, src) ==
      State(s.data[..s.tail] + src + s.data[s.tail + |src|..], s.head, s.tail + |src|)
  {
  }

  /** The state after a write that runs past the physical end. */
  lemma WrapState<T>(s: State<T>, src: seq<T>)
    requires WellFormed(s) && |src| < |s.data| && s.tail + |src| > |s.data|
    ensures var n := |s.data| - s.tail;
      var k := |src| - n;
      AfterWrite(s, src) == State(src[n..] + s.data[k..s.tail] + src[..n], if k > s.head then k else s.head, k)
  {
  }

  /** The store after a wrapping write, seen from a `head` between the new
      `tail` and the old one. */
  lemma WrapWindow<T>(a: seq<T>, tail: nat, src: seq<T>, head: nat)
    requires tail <= |a| && |src| < |a| && tail + |src| > |a|
    requires |src| - (|a| - tail) <= head <= tail
    ensures var n := |a| - tail;
      var d := src[n..] + a[|src| - n..tail] + src[..n];
      d[head..] + d[..|src| - n] == a[head..tail] + src
  {
    var n := |a| - tail;
    var d := src[n..] + a[|src| - n..tail] + src[..n];
    assert d[head..] == a[head..tail] + src[..n];
    assert src == src[..n] + src[n..];
  }

  /** Dropping `j` elements from the front of a join. */
  lemma NewestOfJoin<T>(x: seq<T>, y: seq<T>, j: nat)
    requires j <= |x|
    ensures (x + y)[j..] == x[j..] + y
  {
  }

  /** Dropping all of the first part of a join and `m` more. */
  lemma NewestPastJoin<T>(x: seq<T>, y: seq<T>, m: nat)
    requires m <= |y|
    ensures (x + y)[|x| + m..] == y[m..]
  {
  }

  /** As written: when the buffer is wrapped (`head > tail`) and a write
      shorter than the store runs past `head`, `head` stays where it was, so
      only the new elements beyond the old `head` remain and everything the
      buffer held before is lost. */
  lemma WrappedOverrunKeepsOnlyNew<T>(s: State<T>, src: seq<T>)
    requires WellFormed(s) && OverrunsWrapped(s, src)
    ensures WellFormed(AfterWrite(s, src))
    ensures Stored(AfterWrite(s, src)) == src[s.head - s.tail..]
    ensures |Stored(AfterWrite(s, src))| < Min(|s.data|, |Live(s) + src|)
  {
    if s.tail + |src| <= |s.data| {
      OverrunBeforeEnd(s, src);
    } else {
      OverrunAcrossEnd(s, src);
    }
    WrappedLiveLength(s);
  }

  lemma OverrunBeforeEnd<T>(s: State<T>, src: seq<T>)
    requires WellFormed(s) && OverrunsWrapped(s, src) && s.tail + |src| <= |s.data|
    ensures WellFormed(AfterWrite(s, src))
    ensures Stored(AfterWrite(s, src)) == src[s.head - s.tail..]
  {
    var e := s.tail + |src|;
    var t := State(s.data[..s.tail] + src + s.data[e..], s.head, e);
    FitState(s, src);
    OverrunFit(s.data, s.tail, src, s.head);
    assert Stored(t) == t.data[s.head..e];
  }

  lemma OverrunAcrossEnd<T>(s: State<T>, src: seq<T>)
    requires WellFormed(s) && OverrunsWrapped(s, src) && s.tail + |src| > |s.data|
    ensures WellFormed(AfterWrite(s, src))
    ensures Stored(AfterWrite(s, src)) == src[s.head - s.tail..]
  {
    var n := |s.data| - s.tail;
    var k := |src| - n;
    var t := State(src[n..] + s.data[k..s.tail] + src[..n], s.head, k);
    WrapState(s, src);
    OverrunWrap(s.data, s.tail, src, s.head);
    assert Stored(t) == t.data[s.head..] + t.data[..k];
  }

  lemma WrappedLiveLength<T>(s: State<T>)
    requires WellFormed(s) && s.head > s.tail
    ensures |Live(s)| == |s.data| - s.head + s.tail
  {
  }

  /** What a write that fits before the end leaves from `head` to the new
      `tail`, for a `head` inside the written part. */
  lemma OverrunFit<T>(a: seq<T>, tail: nat, src: seq<T>, head: nat)
    requires tail <= head <= tail + |src| <= |a|
    ensures (a[..tail] + src + a[tail + |src|..])[head..tail + |src|] == src[head - tail..]
  {
  }

  /** What a wrapping write leaves from `head` round to the new `tail`, for
      a `head` inside the part written before the end. */
  lemma OverrunWrap<T>(a: seq<T>, tail: nat, src: seq<T>, head: nat)
    requires tail <= head <= |a| && |src| < |a| && tail + |src| > |a|
    ensures var n := |a| - tail;
      var d := src[n..] + a[|src| - n..tail] + src[..n];
      d[head..] + d[..|src| - n] == src[head - tail..]
  {
    var n := |a| - tail;
    var d := src[n..] + a[|src| - n..tail] + src[..n];
    assert d[head..] == src[head - tail..n];
    assert d[..|src| - n] == src[n..];
  }

  /** The smallest instance: four slots, two writes and an advance from the
      package's own tests, then a two-element write keeps only `[7]` where the
      newest four elements `[4, 5, 6, 7]` were meant to survive. */
  lemma WrappedOverrunExample()
    ensures var s := AfterWrite(AfterAdvance(AfterWrite(Fresh(4, 0), [1, 2, 3, 4]), 2), [5]);
      s == State([5, 2, 3, 4], 2, 1) &&
      AfterWrite(s, [6, 7]) == State([5, 6, 7, 4], 2, 3) &&
      Stored(AfterWrite(s, [6, 7])) == [7] &&
      Stored(EvictingWrite(s, [6, 7])) == [4, 5, 6, 7]
  {
    var s := AfterWrite(AfterAdvance(AfterWrite(Fresh(4, 0), [1, 2, 3, 4]), 2), [5]);
    assert AfterWrite(Fresh(4, 0), [1, 2, 3, 4]) == State([1, 2, 3, 4], 0, 4);
    assert s == State([5, 2, 3, 4], 2, 1);
    var t := AfterWrite(s, [6, 7]);
    assert t == State([5, 6, 7, 4], 2, 3);
    assert EvictingWrite(s, [6, 7]) == State([5, 6, 7, 4], 3, 3);
  }

  /** The write that evicts exactly the overwritten elements: as `Write`,
      except that a write into a wrapped buffer that runs past `head` moves
      `head` to the new `tail`. */
  function EvictingWrite<T>(s: State<T>, src: seq<T>): State<T>
    requires WellFormed(s)
  {
    var t := AfterWrite(s, src);
    if OverrunsWrapped(s, src) then t.(head := t.tail) else t
  }

  /** The evicting write keeps the newest of the elements `Len` counts and
      the new ones, whatever the cursors. A full buffer with `head == tail`
      still counts as empty, so it loses its old elements here as it does
      under `Write` (see `FullCountsAsEmpty`). */
  lemma EvictingWriteKeepsNewest<T>(s: State<T>, src: seq<T>)
    requires WellFormed(s)
    ensures KeepsNewest(s, src, EvictingWrite(s, src))
  {
    if !OverrunsWrapped(s, src) {
      WriteKeepsNewest(s, src);
    } else if s.tail + |src| <= |s.data| {
      EvictingBeforeEnd(s, src);
    } else {
      EvictingAcrossEnd(s, src);
    }
  }

  /** A full buffer with `head == tail`, as the tests pin it, hands out
      all four elements through `CopyTo` but counts none through `Len`; a
      one-element write then leaves only the new element stored, with or
      without eviction. */
  lemma FullCountsAsEmpty()
    ensures var s := State([5, 2, 3, 4], 1, 1);
      Stored(s) == [2, 3, 4, 5] && Live(s) == [] &&
      AfterWrite(s, [6]) == State([5, 6, 3, 4], 1, 2) && Stored(AfterWrite(s, [6])) == [6] &&
      EvictingWrite(s, [6]) == AfterWrite(s, [6])
  {
    var s := State([5, 2, 3, 4], 1, 1);
    assert AfterWrite(s, [6]) == State([5, 6, 3, 4], 1, 2);
  }

  lemma EvictingBeforeEnd<T>(s: State<T>, src: seq<T>)
    requires WellFormed(s) && OverrunsWrapped(s, src) && s.tail + |src| <= |s.data|
    ensures KeepsNewest(s, src, EvictingWrite(s, src))
  {
    var e := s.tail + |src|;
    var d := s.data[..s.tail] + src + s.data[e..];
    var t := State(d, e, e);
    assert EvictingWrite(s, src) == t;
    SpliceWindow(s.data, s.tail, src, e);
    assert Stored(t) == s.data[e..] + (s.data[..s.tail] + src);
    assert Live(s) == s.data[s.head..] + s.data[..s.tail];
    NewestOfJoin(s.data[s.head..], s.data[..s.tail], e - s.head);
    assert s.data[s.head..][e - s.head..] == s.data[e..];
    KeptNewest(s, src, t, e - s.head);
  }

  lemma EvictingAcrossEnd<T>(s: State<T>, src: seq<T>)
    requires WellFormed(s) && OverrunsWrapped(s, src) && s.tail + |src| > |s.data|
    ensures KeepsNewest(s, src, EvictingWrite(s, src))
  {
    var n := |s.data| - s.tail;
    var k := |src| - n;
    var d := src[n..] + s.data[k..s.tail] + src[..n];
    WrapState(s, src);
    var t := State(d, k, k);
    assert EvictingWrite(s, src) == t;
    WrapWindow(s.data, s.tail, src, k);
    assert Stored(t) == s.data[k..s.tail] + src;
    assert Live(s) == s.data[s.head..] + s.data[..s.tail];
    NewestPastJoin(s.data[s.head..], s.data[..s.tail], k);
    assert s.data[..s.tail][k..] == s.data[k..s.tail];
    KeptNewest(s, src, t, |s.data| - s.head + k);
  }

  // -----------------------------------------------------------------------
  // The states pinned by the package's tests (four slots of uint16)

  /** Writes that fit, from an empty buffer and after an advance. */
  lemma PinnedWrites()
    ensures AfterWrite(Fresh(4, 0), [1, 2]) == State([1, 2, 0, 0], 0, 2)
    ensures AfterWrite(AfterWrite(Fresh(4, 0), [1, 2]), [3]) == State([1, 2, 3, 0], 0, 3)
    ensures AfterWrite(AfterAdvance(AfterWrite(Fresh(4, 0), [1, 2]), 1), [3])
         == State([1, 2, 3, 0], 1, 3)
  {
    assert Fresh(4, 0).data == [0, 0, 0, 0];
    assert AfterWrite(Fresh(4, 0), [1, 2]) == State([1, 2, 0, 0], 0, 2);
  }

  /** Writes that wrap or replace the whole store. */
  lemma PinnedOverwrites()
    ensures AfterWrite(AfterWrite(Fresh(4, 0), [1, 2]), [3, 4, 5]) == State([5, 2, 3, 4], 1, 1)
    ensures AfterWrite(AfterWrite(Fresh(4, 0), [1, 2, 3]), [4, 5]) == State([5, 2, 3, 4], 1, 1)
    ensures AfterWrite(Fresh(4, 0), [1, 2, 3, 4, 5]) == State([2, 3, 4, 5], 0, 4)
  {
    assert Fresh(4, 0).data == [0, 0, 0, 0];
    assert AfterWrite(Fresh(4, 0), [1, 2]) == State([1, 2, 0, 0], 0, 2);
    assert AfterWrite(Fresh(4, 0), [1, 2, 3]) == State([1, 2, 3, 0], 0, 3);
  }

  /** What wrapped buffers hand out, and an advance past the end. */
  lemma PinnedCopies()
    ensures Stored(State([5, 2, 3, 4], 2, 1)) == [3, 4, 5]
    ensures AfterAdvance(State([5, 2, 3, 4], 2, 1), 3) == State([5, 2, 3, 4], 1, 1)
    ensures Stored(State([1, 2, 3, 4, 5, 6, 7, 8], 7, 3)) == [8, 1, 2, 3]
    ensures Stored(State([1, 2, 3, 4, 5, 6, 7, 8], 8, 4)) == [1, 2, 3, 4]
  {
  }
}
