/** Index arithmetic and contents of a circular byte buffer. */
module Ring {
  import opened Division
  import opened Bytes

  /** `x % n` for the sums the firmware forms, which stay below `2 * n`. */
  function Index(x: nat, n: nat): (i: nat)
    requires 0 < n && x < 2 * n
    ensures i == if x < n then x else x - n
  {
    ModOnce(x, n);
    x % n
  }

  lemma ModOnce(x: nat, n: nat)
    requires 0 < n && x < 2 * n
    ensures x % n == if x < n then x else x - n
  {
    var q := x / n;
    assert x == q * n + x % n;
    if q == 0 {
      assert q * n == 0;
    } else if q == 1 {
      assert q * n == n;
    } else {
      MulAtLeast(q, n);
    }
  }

  lemma MulAtLeast(q: nat, n: nat)
    requires 2 <= q
    ensures 2 * n <= q * n
  {
    assert q * n == (q - 2) * n + 2 * n;
  }

  /** `x % n` for any sum: what is left of it within the ring. */
  function Wrapped(x: nat, n: nat): (r: nat)
    requires 0 < n
    ensures r < n && (x < n ==> r == x)
  {
    if x < n then Reduce(x, x, 0, n); x % n else x % n
  }

  lemma WrapAny(start: nat, used: nat, len: nat, n: nat)
    requires start < n && used < n
    ensures Wrapped(Index(start + used, n) + len, n) == Index(start + Wrapped(used + len, n), n)
  {
    var total := used + len;
    var q, r := total / n, total % n;
    var turns := q * n;
    assert total == turns + r;
    WrapTurns(start, used, len, n, q, turns, r);
  }

  lemma WrapTurns(start: nat, used: nat, len: nat, n: nat, q: nat, turns: nat, r: nat)
    requires start < n && used < n && r < n && turns == q * n && used + len == turns + r
    ensures (Index(start + used, n) + len) % n == Index(start + r, n)
  {
    var w := Index(start + used, n);
    if start + used < n {
      Reduce(w + len, start + r, q, n);
    } else if q == 0 {
      Reduce(w + len, start + r - n, 0, n);
    } else {
      OneLess(q, n);
      Reduce(w + len, start + r, q - 1, n);
    }
  }

  lemma OneLess(q: nat, n: nat)
    requires 0 < q
    ensures (q - 1) * n == q * n - n
  {
  }

  lemma Reduce(x: nat, y: nat, q: nat, n: nat)
    requires 0 < n && y < 2 * n && x == y + q * n
    ensures x % n == Index(y, n)
  {
    var r := Index(y, n);
    var k := if y < n then q else q + 1;
    assert k * n == if y < n then q * n else q * n + n;
    Unique(x, n, k, r);
  }

  /** Bytes between two indices: `(end - start) & (n - 1)` for a power of two. */
  function Distance(start: nat, end: nat, n: nat): (d: nat)
    requires start < n && end < n
    ensures d < n && Index(start + d, n) == end
    ensures d == 0 <==> start == end
  {
    if start <= end then end - start else end + n - start
  }

  /** `len` bytes from `start` on, around the end if need be. */
  function Slice(ring: seq<byte>, start: nat, len: nat): (s: seq<byte>)
    requires start < |ring| && len <= |ring|
    ensures |s| == len
    ensures forall i :: 0 <= i < len ==> s[i] == ring[Index(start + i, |ring|)]
  {
    seq(len, i requires 0 <= i < len => ring[Index(start + i, |ring|)])
  }

  /** A slice of a slice is a slice from a later index. */
  lemma SliceOfSlice(ring: seq<byte>, start: nat, len: nat, from: nat, count: nat)
    requires start < |ring| && len <= |ring| && from + count <= len && from < |ring|
    ensures Slice(ring, Index(start + from, |ring|), count) == Slice(ring, start, len)[from..from + count]
  {
  }

  /** The ring after `chunk` has been stored from index `at` on. */
  function Stored(ring: seq<byte>, at: nat, chunk: seq<byte>): (r: seq<byte>)
    requires at < |ring| && |chunk| <= |ring|
    ensures |r| == |ring|
  {
    seq(|ring|, i requires 0 <= i < |ring| =>
      if Distance(at, i, |ring|) < |chunk| then chunk[Distance(at, i, |ring|)] else ring[i])
  }

  lemma StoredNothing(ring: seq<byte>, at: nat)
    requires at < |ring|
    ensures Stored(ring, at, []) == ring
  {
  }

  lemma StoredOneMore(ring: seq<byte>, at: nat, chunk: seq<byte>, b: byte)
    requires at < |ring| && |chunk| < |ring|
    ensures Stored(ring, at, chunk + [b]) == Stored(ring, at, chunk)[Index(at + |chunk|, |ring|) := b]
  {
    hide Index;
    var i := Index(at + |chunk|, |ring|);
    forall j | 0 <= j < |ring|
      ensures Stored(ring, at, chunk + [b])[j] == Stored(ring, at, chunk)[i := b][j]
    {
      assert Distance(at, j, |ring|) == |chunk| <==> j == i;
    }
  }

  /** How long a slice stays: `behind` bytes lie between its start and where the next chunk goes. It
      stays as it is as long as the chunk does not reach round to it, and the first byte that does
      overwrites its start. */
  lemma SliceStays(ring: seq<byte>, start: nat, len: nat, behind: nat, chunk: seq<byte>)
    requires start < |ring| && 0 < len <= behind < |ring| && |chunk| <= |ring|
    ensures var r := Stored(ring, Index(start + behind, |ring|), chunk);
            && (behind + |chunk| <= |ring| ==> Slice(r, start, len) == Slice(ring, start, len))
            && (behind + |chunk| > |ring| ==> r[start] == chunk[|ring| - behind])
  {
    var n := |ring|;
    var at := Index(start + behind, n);
    assert Distance(at, start, n) == n - behind;
    if behind + |chunk| <= n {
      forall i | 0 <= i < len
        ensures Slice(Stored(ring, at, chunk), start, len)[i] == Slice(ring, start, len)[i]
      {
        assert Distance(at, Index(start + i, n), n) == n - behind + i;
      }
    }
  }

  /** The ring after several chunks, one behind the other. */
  function StoredAll(ring: seq<byte>, at: nat, chunks: seq<seq<byte>>): (r: seq<byte>)
    requires at < |ring| && forall i :: 0 <= i < |chunks| ==> |chunks[i]| < |ring|
    ensures |r| == |ring|
    decreases |chunks|
  {
    if chunks == [] then ring
    else StoredAll(Stored(ring, at, chunks[0]), Index(at + |chunks[0]|, |ring|), chunks[1..])
  }

  function Total(chunks: seq<seq<byte>>): nat {
    if chunks == [] then 0 else |chunks[0]| + Total(chunks[1..])
  }

  /** ... whatever the chunks, until their bytes reach round to the slice. */
  lemma {:induction false} SliceStaysLong(ring: seq<byte>, start: nat, len: nat, behind: nat, chunks: seq<seq<byte>>)
    requires start < |ring| && 0 < len <= behind < |ring| && behind + Total(chunks) < |ring|
    requires forall i :: 0 <= i < |chunks| ==> |chunks[i]| < |ring|
    ensures Slice(StoredAll(ring, Index(start + behind, |ring|), chunks), start, len) == Slice(ring, start, len)
    decreases |chunks|
  {
    hide Slice, Stored, Index;
    if chunks != [] {
      SliceStays(ring, start, len, behind, chunks[0]);
      NextIndex(start, behind, |chunks[0]|, |ring|);
      var r := Stored(ring, Index(start + behind, |ring|), chunks[0]);
      SliceStaysLong(r, start, len, behind + |chunks[0]|, chunks[1..]);
    }
  }

  lemma NextIndex(start: nat, behind: nat, more: nat, n: nat)
    requires start < n && behind + more < n
    ensures Index(start + behind, n) + more < 2 * n
    ensures Index(Index(start + behind, n) + more, n) == Index(start + behind + more, n)
  {
  }
}
