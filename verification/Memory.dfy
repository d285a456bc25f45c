/** The copy and fill loops of the kernel's string functions, on one array of bytes. */
module Memory {

  type byte = x: nat | x < 256

  /** What `count` rounds of a byte-by-byte copy from the front leave. */
  function ForwardCopy(s: seq<byte>, dest: nat, src: nat, count: nat): (t: seq<byte>)
    requires dest + count <= |s| && src + count <= |s|
    ensures |t| == |s|
  {
    if count == 0 then s
    else
      var t := ForwardCopy(s, dest, src, count - 1);
      t[dest + count - 1 := t[src + count - 1]]
  }

  /** A move of `count` bytes. */
  function Moved(s: seq<byte>, dest: nat, src: nat, count: nat): (t: seq<byte>)
    requires dest + count <= |s| && src + count <= |s|
    ensures |t| == |s|
  {
    s[..dest] + s[src..src + count] + s[dest + count..]
  }

  predicate SafeOverlap(dest: nat, src: nat, count: nat) {
    dest <= src || src + count <= dest
  }

  lemma {:induction false} ForwardCopyMoves(s: seq<byte>, dest: nat, src: nat, count: nat, total: nat)
    requires dest + total <= |s| && src + total <= |s| && count <= total && SafeOverlap(dest, src, total)
    ensures ForwardCopy(s, dest, src, count) == Moved(s, dest, src, count)
  {
    if count > 0 {
      ForwardCopyMoves(s, dest, src, count - 1, total);
      MovedNext(s, dest, src, count, total);
    }
  }

  /** One byte more, from a place that the move has not touched. */
  lemma MovedNext(s: seq<byte>, dest: nat, src: nat, count: nat, total: nat)
    requires dest + total <= |s| && src + total <= |s| && 0 < count <= total && SafeOverlap(dest, src, total)
    ensures var t := Moved(s, dest, src, count - 1);
            t[dest + count - 1 := t[src + count - 1]] == Moved(s, dest, src, count)
  {
    var t, n := Moved(s, dest, src, count - 1), dest + count - 1;
    assert t[src + count - 1] == s[src + count - 1];
    var u := t[n := s[src + count - 1]];
    var v := Moved(s, dest, src, count);
    forall p | 0 <= p < |s|
      ensures u[p] == v[p]
    {
      if dest <= p < n {
        assert t[p] == s[src..src + count - 1][p - dest] == s[src + p - dest];
        assert v[p] == s[src..src + count][p - dest] == s[src + p - dest];
      }
    }
  }

  lemma {:induction false} ForwardCopyRepeats(s: seq<byte>, dest: nat, src: nat, count: nat)
    requires dest + count <= |s| && src + count <= |s| && src < dest
    ensures forall p :: 0 <= p < dest ==> ForwardCopy(s, dest, src, count)[p] == s[p]
    ensures count > dest - src ==> ForwardCopy(s, dest, src, count)[dest + (dest - src)] == s[src]
    ensures count > 0 ==> ForwardCopy(s, dest, src, count)[dest] == s[src]
  {
    if count > 0 {
      ForwardCopyRepeats(s, dest, src, count - 1);
    }
  }

  lemma UnsafeOverlapShows(length: nat, dest: nat, src: nat, count: nat) returns (s: seq<byte>)
    requires dest + count <= length && src + count <= length && !SafeOverlap(dest, src, count)
    ensures |s| == length && ForwardCopy(s, dest, src, count) != Moved(s, dest, src, count)
  {
    s := seq(length, i => if i == src then 1 else 0);
    ForwardCopyRepeats(s, dest, src, count);
    var p := dest + (dest - src);
    assert ForwardCopy(s, dest, src, count)[p] == s[src] == 1;
    assert Moved(s, dest, src, count)[p] == s[src..src + count][dest - src] == s[dest] == 0;
  }

  /** Copying from the front is a move for all contents exactly when the overlap is safe. */
  lemma ForwardCopyMovesExactly(length: nat, dest: nat, src: nat, count: nat)
    requires dest + count <= length && src + count <= length
    ensures (forall s: seq<byte> :: |s| == length ==> ForwardCopy(s, dest, src, count) == Moved(s, dest, src, count))
       <==> SafeOverlap(dest, src, count)
  {
    hide ForwardCopy, Moved;
    if SafeOverlap(dest, src, count) {
      forall s: seq<byte> | |s| == length
        ensures ForwardCopy(s, dest, src, count) == Moved(s, dest, src, count)
      {
        ForwardCopyMoves(s, dest, src, count, count);
      }
    } else {
      var s := UnsafeOverlapShows(length, dest, src, count);
    }
  }

  /** `memcpy` within one array */
  method Memcpy(a: array<byte>, dest: nat, src: nat, count: nat)
    requires dest + count <= a.Length && src + count <= a.Length
    modifies a
    ensures a[..] == ForwardCopy(old(a[..]), dest, src, count)
  {
    var i := 0;
    while i < count
      invariant 0 <= i <= count
      invariant a[..] == ForwardCopy(old(a[..]), dest, src, i)
    {
      a[dest + i] := a[src + i];
      i := i + 1;
    }
  }

  /** The little-endian word at word index `k`. */
  function WordAt(s: seq<byte>, k: nat): nat
    requires 2 * k + 1 < |s|
  {
    var low: int, high: int := s[2 * k], s[2 * k + 1];
    low + 256 * high
  }

  type word = x: nat | x < 0x1_0000

  method StoreWord(a: array<byte>, k: nat, w: word)
    requires 2 * k + 1 < a.Length
    modifies a
    ensures WordAt(a[..], k) == w
    ensures forall j :: 0 <= j < a.Length && j != 2 * k && j != 2 * k + 1 ==> a[j] == old(a[j])
    ensures forall j :: 0 <= j && 2 * j + 1 < a.Length && j != k ==> WordAt(a[..], j) == WordAt(old(a[..]), j)
  {
    a[2 * k] := w % 256;
    a[2 * k + 1] := w / 256;
  }

  /** `memsetw` */
  method Memsetw(a: array<byte>, dest: nat, w: word, count: nat)
    requires 2 * (dest + count) <= a.Length
    modifies a
    ensures forall j :: 0 <= j && 2 * j + 1 < a.Length ==>
      WordAt(a[..], j) == if dest <= j < dest + count then w else WordAt(old(a[..]), j)
  {
    var i := 0;
    while i < count
      invariant 0 <= i <= count
      invariant forall j :: 0 <= j && 2 * j + 1 < a.Length ==>
        WordAt(a[..], j) == if dest <= j < dest + i then w else WordAt(old(a[..]), j)
    {
      StoreWord(a, dest + i, w);
      i := i + 1;
    }
  }
}
