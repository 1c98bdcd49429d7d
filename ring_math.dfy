/**
 * Cursor arithmetic shared by the two ring buffers (Queue.h and
 * include/log/queue.h): a monotone cursor c addresses `ring[c % capacity]`,
 * and a run of bytes starting at a cursor is copied in at most two `memcpy`
 * segments, the second one restarting at index 0.
 *
 * `RingRead` and `RingWrite` say what such a run is as a value; `Memcpy`,
 * `Memset`, `RingCopyIn` and `RingCopyOut` do it in place on an array, the
 * way the source does, and are proved to agree with them.
 */
module RingMath {
  import opened NumberTheory

  /** The `count` elements starting at cursor `start`, in ring order. */
  function RingRead<T>(ring: seq<T>, start: nat, count: nat): (r: seq<T>)
    requires |ring| > 0 || count == 0
    ensures |r| == count
  {
    seq(count, i requires 0 <= i < count => ring[(start + i) % |ring|])
  }

  /** The ring after `data` is written at cursors `start, start + 1, ...`;
      everything else is unchanged. At most one lap is written. */
  function RingWrite<T>(ring: seq<T>, start: nat, data: seq<T>): (r: seq<T>)
    requires |data| <= |ring|
    ensures |r| == |ring|
  {
    seq(|ring|, j requires 0 <= j < |ring| =>
      if (j - start) % |ring| < |data| then data[(j - start) % |ring|] else ring[j])
  }

  /** `s` with `data` copied over it from index `at`: what one `memcpy` does. */
  function Splice<T>(s: seq<T>, at: nat, data: seq<T>): (r: seq<T>)
    requires at + |data| <= |s|
    ensures |r| == |s|
  {
    s[..at] + data + s[at + |data|..]
  }

  /** A `memcpy` to the front of `s` puts `data` before the rest of `s`. */
  lemma SpliceFront<T>(s: seq<T>, data: seq<T>)
    requires |data| <= |s|
    ensures Splice(s, 0, data)[..|data|] == data
    ensures Splice(s, 0, data)[|data|..] == s[|data|..]
  {
  }

  /** Two back-to-back `memcpy`s to the front of `s` put `a + b` there. */
  lemma SpliceFrontTwice<T>(s: seq<T>, a: seq<T>, b: seq<T>)
    requires |a| + |b| <= |s|
    ensures Splice(Splice(s, 0, a), |a|, b)[..|a| + |b|] == a + b
    ensures Splice(Splice(s, 0, a), |a|, b)[|a| + |b|..] == s[|a| + |b|..]
  {
    var t := Splice(s, 0, a);
    SpliceFront(s, a);
    assert t[..|a|] == a;
    var u := Splice(t, |a|, b);
    assert u == a + b + s[|a| + |b|..];
  }

  /** Position of cursor `start + i` relative to cursor `start`. */
  lemma RingOffset(n: nat, start: nat, i: nat)
    requires n > 0 && i < n
    ensures ((start + i) % n - start) % n == i
  {
    DivModUnique((start + i) % n - start, n, -((start + i) / n), i);
  }

  /** How far index j of the ring lies past cursor `start`, going forward. */
  lemma IndexOffset(n: nat, start: nat, j: nat)
    requires n > 0 && j < n
    ensures (j - start) % n == if j >= start % n then j - start % n else j - start % n + n
  {
    var at := start % n;
    assert start == n * (start / n) + at;
    if j >= at {
      DivModUnique(j - start, n, -(start / n), j - at);
    } else {
      DivModUnique(j - start, n, -(start / n) - 1, j - at + n);
    }
  }

  /** Byte i of the data lands at cursor `start + i`. */
  lemma RingWriteAt<T>(ring: seq<T>, start: nat, data: seq<T>, i: nat)
    requires |data| <= |ring| && i < |data|
    ensures RingWrite(ring, start, data)[(start + i) % |ring|] == data[i]
  {
    RingOffset(|ring|, start, i);
  }

  /** Reading back a run just written gives the data. */
  lemma RingReadWrite<T>(ring: seq<T>, start: nat, data: seq<T>)
    requires |data| <= |ring|
    ensures RingRead(RingWrite(ring, start, data), start, |data|) == data
  {
    forall i | 0 <= i < |data|
      ensures RingRead(RingWrite(ring, start, data), start, |data|)[i] == data[i]
    {
      RingWriteAt(ring, start, data, i);
    }
  }

  /** Writing `data` at the push cursor, when it fits beside the live run
      `pop .. push`, appends it to that run and leaves the run intact. */
  lemma RingAppend<T>(ring: seq<T>, pop: nat, push: nat, data: seq<T>)
    requires pop <= push && push - pop + |data| <= |ring|
    ensures RingRead(RingWrite(ring, push, data), pop, push - pop + |data|)
         == RingRead(ring, pop, push - pop) + data
  {
    var n := |ring|;
    var size := push - pop;
    var after := RingWrite(ring, push, data);
    forall i | 0 <= i < size + |data|
      ensures RingRead(after, pop, size + |data|)[i] == (RingRead(ring, pop, size) + data)[i]
    {
      if i < size {
        var j := (pop + i) % n;
        DivModUnique(j - push, n, -((pop + i) / n) - 1, n - size + i);
      } else {
        RingWriteAt(ring, push, data, i - size);
        assert pop + i == push + (i - size);
      }
    }
  }

  /** Dropping the first element of a run is starting it one cursor later. */
  lemma RingReadAdvance<T>(ring: seq<T>, start: nat, count: nat)
    requires |ring| > 0 && count > 0
    ensures RingRead(ring, start, count)[1..] == RingRead(ring, start + 1, count - 1)
  {
  }

  /** Writing one element is an update at its cursor's index. */
  lemma RingWriteOne<T>(ring: seq<T>, start: nat, x: T)
    requires |ring| > 0
    ensures RingWrite(ring, start, [x]) == ring[start % |ring| := x]
  {
    var n := |ring|;
    forall j | 0 <= j < n
      ensures RingWrite(ring, start, [x])[j] == ring[start % n := x][j]
    {
      IndexOffset(n, start, j);
    }
  }

  /** The two-segment copy used when a run crosses the end of the ring, and
      the single copy used otherwise, both write what `RingWrite` says. */
  lemma SplitWrite<T>(ring: seq<T>, start: nat, data: seq<T>)
    requires |ring| > 0 && |data| <= |ring|
    ensures var at := start % |ring|; var room := |ring| - at;
      if |data| > room then
        Splice(Splice(ring, at, data[..room]), 0, data[room..]) == RingWrite(ring, start, data)
      else
        Splice(ring, at, data) == RingWrite(ring, start, data)
  {
    var at := start % |ring|;
    if |data| > |ring| - at {
      SplitWriteWrapped(ring, start, data);
    } else {
      SplitWriteFits(ring, start, data);
    }
  }

  lemma SplitWriteWrapped<T>(ring: seq<T>, start: nat, data: seq<T>)
    requires |ring| > 0 && |ring| - start % |ring| < |data| <= |ring|
    ensures var room := |ring| - start % |ring|;
      Splice(Splice(ring, start % |ring|, data[..room]), 0, data[room..]) == RingWrite(ring, start, data)
  {
    var n := |ring|;
    var at := start % n;
    var room := n - at;
    var s := Splice(Splice(ring, at, data[..room]), 0, data[room..]);
    var w := RingWrite(ring, start, data);
    forall j | 0 <= j < n
      ensures s[j] == w[j]
    {
      IndexOffset(n, start, j);
    }
  }

  lemma SplitWriteFits<T>(ring: seq<T>, start: nat, data: seq<T>)
    requires |ring| > 0 && |data| <= |ring| - start % |ring|
    ensures Splice(ring, start % |ring|, data) == RingWrite(ring, start, data)
  {
    var n := |ring|;
    var s := Splice(ring, start % n, data);
    var w := RingWrite(ring, start, data);
    forall j | 0 <= j < n
      ensures s[j] == w[j]
    {
      IndexOffset(n, start, j);
    }
  }

  /** The two-segment read used when a run crosses the end of the ring, and
      the single read used otherwise, both read what `RingRead` says. */
  lemma SplitRead<T>(ring: seq<T>, start: nat, count: nat)
    requires |ring| > 0 && count <= |ring|
    ensures var at := start % |ring|; var room := |ring| - at;
      if count > room then
        ring[at..] + ring[..count - room] == RingRead(ring, start, count)
      else
        ring[at..at + count] == RingRead(ring, start, count)
  {
    var n := |ring|;
    var at := start % n;
    var room := n - at;
    assert start == n * (start / n) + at;
    forall i | 0 <= i < count
      ensures RingRead(ring, start, count)[i] == if i < room then ring[at + i] else ring[i - room]
    {
      if i < room {
        DivModUnique(start + i, n, start / n, at + i);
      } else {
        DivModUnique(start + i, n, start / n + 1, i - room);
      }
    }
  }

  /** `memcpy(dst + at, src, |src|)` */
  method Memcpy<T>(dst: array<T>, at: nat, src: seq<T>)
    requires at + |src| <= dst.Length
    modifies dst
    ensures dst[..] == Splice(old(dst[..]), at, src)
  {
    for k := 0 to |src|
      invariant forall j :: 0 <= j < dst.Length ==>
        dst[j] == if at <= j < at + k then src[j - at] else old(dst[j])
    {
      dst[at + k] := src[k];
    }
    assert dst[..] == Splice(old(dst[..]), at, src);
  }

  /** `memset(dst + at, c, n)` */
  method Memset<T>(dst: array<T>, at: nat, n: nat, c: T)
    requires at + n <= dst.Length
    modifies dst
    ensures dst[..] == Splice(old(dst[..]), at, seq(n, _ => c))
  {
    for k := 0 to n
      invariant forall j :: 0 <= j < dst.Length ==>
        dst[j] == if at <= j < at + k then c else old(dst[j])
    {
      dst[at + k] := c;
    }
    assert dst[..] == Splice(old(dst[..]), at, seq(n, _ => c));
  }

  /** Copy `data` into the ring from cursor `start`: one `memcpy` up to the
      end of the ring, and a second one from index 0 for the rest. */
  method RingCopyIn<T>(ring: array<T>, start: nat, data: seq<T>)
    requires ring.Length > 0 && |data| <= ring.Length
    modifies ring
    ensures ring[..] == RingWrite(old(ring[..]), start, data)
  {
    SplitWrite(ring[..], start, data);
    var at := start % ring.Length;
    var room := ring.Length - at;
    if |data| > room {
      Memcpy(ring, at, data[..room]);
      Memcpy(ring, 0, data[room..]);
    } else {
      Memcpy(ring, at, data);
    }
  }

  /** Copy the `count` elements from cursor `start` out to the front of
      `value`, in at most two `memcpy` segments. */
  method RingReadOut<T>(ring: array<T>, start: nat, count: nat, value: array<T>)
    requires ring.Length > 0 && count <= ring.Length && count <= value.Length && ring != value
    modifies value
    ensures value[..count] == RingRead(ring[..], start, count)
    ensures value[count..] == old(value[count..])
  {
    SplitRead(ring[..], start, count);
    ghost var before := value[..];
    var at := start % ring.Length;
    var room := ring.Length - at;
    if count > room {
      Memcpy(value, 0, ring[at..]);
      Memcpy(value, room, ring[..count - room]);
      SpliceFrontTwice(before, ring[at..], ring[..count - room]);
    } else {
      Memcpy(value, 0, ring[at..at + count]);
      SpliceFront(before, ring[at..at + count]);
    }
  }

  /** Overwrite the `count` elements from cursor `start` with `filler`, in
      at most two `memset` segments. */
  method RingFill<T>(ring: array<T>, start: nat, count: nat, filler: T)
    requires ring.Length > 0 && count <= ring.Length
    modifies ring
    ensures ring[..] == RingWrite(old(ring[..]), start, seq(count, _ => filler))
  {
    var fill := seq(count, _ => filler);
    SplitWrite(ring[..], start, fill);
    var at := start % ring.Length;
    var room := ring.Length - at;
    if count > room {
      assert fill[..room] == seq(room, _ => filler);
      assert fill[room..] == seq(count - room, _ => filler);
      Memset(ring, at, room, filler);
      Memset(ring, 0, count - room, filler);
    } else {
      Memset(ring, at, count, filler);
    }
  }

  /** Copy the `count` elements from cursor `start` out to the front of
      `value`, then overwrite them in the ring with `filler`. */
  method RingCopyOut<T>(ring: array<T>, start: nat, count: nat, value: array<T>, filler: T)
    requires ring.Length > 0 && count <= ring.Length && count <= value.Length && ring != value
    modifies ring, value
    ensures value[..count] == RingRead(old(ring[..]), start, count)
    ensures value[count..] == old(value[count..])
    ensures ring[..] == RingWrite(old(ring[..]), start, seq(count, _ => filler))
  {
    RingReadOut(ring, start, count, value);
    ghost var copied := value[..];
    RingFill(ring, start, count, filler);
    assert value[..] == copied;
  }
}
