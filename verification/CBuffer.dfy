/**
 * The byte ring buffer of src/modules/pmcs/cbuffer.c, against a bounded queue:
 * inserting past the capacity drops the oldest bytes.
 *
 * Batch removal may leave head equal to max_size, although the declaration of the
 * structure promises head < max_size.  The batch operations cope with that; the
 * single-byte operations and the iterator do not, and require head < maxSize.
 */
module CBuffer {
  import opened Arithmetic

  newtype byte = x: int | 0 <= x < 256

  // ---------------------------------------------------------------------------
  // The bounded queue
  // ---------------------------------------------------------------------------

  /** Append items and keep the newest max bytes. */
  function Push<T>(q: seq<T>, items: seq<T>, max: nat): (r: seq<T>)
    ensures |r| == if |q| + |items| <= max then |q| + |items| else max
  {
    var all := q + items;
    if |all| <= max then all else all[|all| - max..]
  }

  /** Pushing only drops the oldest, and only as many as do not fit. */
  lemma PushMeaning<T>(q: seq<T>, items: seq<T>, max: nat) returns (dropped: seq<T>)
    ensures dropped + Push(q, items, max) == q + items
    ensures |Push(q, items, max)| <= max && (dropped != [] ==> |Push(q, items, max)| == max)
  {
    var all := q + items;
    dropped := if |all| <= max then [] else all[..|all| - max];
  }

  /** s cut into pieces of c elements; a last incomplete piece is left out. */
  function Chunks<T>(s: seq<T>, c: nat): seq<seq<T>>
    requires c > 0
    decreases |s|
  {
    if |s| < c then [] else [s[..c]] + Chunks(s[c..], c)
  }

  lemma {:induction false} ChunkCount<T>(s: seq<T>, c: nat)
    requires c > 0
    ensures |Chunks(s, c)| == |s| / c
    decreases |s|
  {
    if |s| < c {
      QuotientUnique(|s|, c, 0);
    } else {
      OneChunkLess(|s|, c);
      ChunkCount(s[c..], c);
    }
  }

  lemma OneChunkLess(n: nat, c: nat)
    requires n >= c > 0
    ensures n / c == (n - c) / c + 1 && n % c == (n - c) % c
  {
    DivMod(n - c, c);
    MulSub((n - c) / c + 1, (n - c) / c, c);
    QuotientUnique(n, c, (n - c) / c + 1);
    DivMod(n, c);
  }

  lemma {:induction false} ChunksConcat<T>(s: seq<T>, t: seq<T>, c: nat)
    requires c > 0 && |s| % c == 0
    ensures Chunks(s + t, c) == Chunks(s, c) + Chunks(t, c)
    decreases |s|
  {
    if |s| < c {
      ModWrap(|s|, c);
      assert s + t == t;
    } else {
      OneChunkLess(|s|, c);
      ChunksConcat(s[c..], t, c);
      assert (s + t)[..c] == s[..c] && (s + t)[c..] == s[c..] + t;
    }
  }

  /** Dropping whole chunks of bytes drops chunks. */
  lemma {:induction false} ChunksDrop<T>(s: seq<T>, c: nat, k: nat)
    requires c > 0 && k * c <= |s|
    ensures k <= |Chunks(s, c)| && Chunks(s[k * c..], c) == Chunks(s, c)[k..]
    decreases k
  {
    if k == 0 {
      assert s[0..] == s;
    } else {
      MulSub(k, 1, c);
      MulNonNegative(k - 1, c);
      ChunksDrop(s[c..], c, k - 1);
      assert s[c..][(k - 1) * c..] == s[k * c..];
    }
  }

  /** With room for m chunks and whole chunks transferred, the byte queue is a queue of chunks of capacity m. */
  lemma PushChunks<T>(q: seq<T>, items: seq<T>, max: nat, m: nat, c: nat)
    requires c > 0 && |q| % c == 0 && |items| % c == 0 && max == m * c
    ensures Chunks(Push(q, items, max), c) == Push(Chunks(q, c), Chunks(items, c), m)
  {
    hide Chunks;
    hide Push;
    var all := q + items;
    ChunksConcat(q, items, c);
    ModOfMultiple(|q|, |items|, c);
    WholeChunks(all, max, m, c);
    if |all| > max {
      DropToFit(all, max, m, c);
    }
    Pushed(q, items, max, Chunks(q, c), Chunks(items, c), m, c);
  }

  lemma Pushed<T>(q: seq<T>, items: seq<T>, max: nat, cq: seq<seq<T>>, ci: seq<seq<T>>, m: nat, c: nat)
    requires c > 0 && Chunks(q + items, c) == cq + ci
    requires |q + items| <= max <==> |cq + ci| <= m
    requires |q + items| > max ==> Chunks((q + items)[|q + items| - max..], c) == (cq + ci)[|cq + ci| - m..]
    ensures Chunks(Push(q, items, max), c) == Push(cq, ci, m)
  {
    hide Chunks;
  }

  lemma WholeChunks<T>(s: seq<T>, max: nat, m: nat, c: nat)
    requires c > 0 && |s| % c == 0 && max == m * c
    ensures |s| <= max <==> |Chunks(s, c)| <= m
    ensures |s| == |Chunks(s, c)| * c
  {
    var n := |s| / c;
    ChunkCount(s, c);
    DivMod(|s|, c);
    if n <= m {
      MulMonotone(n, m, c);
    } else {
      MulMonotone(m + 1, n, c);
      MulSub(m + 1, m, c);
    }
  }

  // Dropping the excess over a capacity of whole chunks.
  lemma DropToFit<T>(all: seq<T>, max: nat, m: nat, c: nat)
    requires c > 0 && |all| % c == 0 && |all| > max == m * c
    ensures |Chunks(all, c)| > m
    ensures Chunks(all[|all| - max..], c) == Chunks(all, c)[|Chunks(all, c)| - m..]
  {
    WholeChunks(all, max, m, c);
    var n := |Chunks(all, c)|;
    MulSub(n, m, c);
    ChunksDrop(all, c, n - m);
  }

  // ---------------------------------------------------------------------------
  // Positions
  // ---------------------------------------------------------------------------

  /** Where element i of the queue is stored. */
  function Pos(head: nat, i: nat, max: nat): (p: nat)
    requires max > 0
    ensures p < max
  {
    (head + i) % max
  }

  /** How far position p is after position from, going round. */
  function Offset(p: nat, from: nat, max: nat): int {
    if p >= from then p - from else p - from + max
  }

  // Position k of the queue is off by k - size from the write position, going round.
  lemma PosOffset(head: nat, size: nat, max: nat, k: nat)
    requires 0 < max && head <= max && size <= max && k < size + max
    ensures Offset(Pos(head, k, max), Pos(head, size, max), max) == if k >= size then k - size else k - size + max
  {
    ModWrap(head + k, max);
    ModWrap(head + size, max);
  }

  lemma PosShift(head: nat, d: nat, i: nat, max: nat)
    requires 0 < max && head <= max && d <= max && i < max
    ensures Pos((head + d) % max, i, max) == Pos(head, d + i, max)
  {
    ModWrap(head + d, max);
    ModWrap((head + d) % max + i, max);
    ModWrap3(head + d + i, max);
  }

  lemma ModWrap3(a: int, k: int)
    requires k > 0
    ensures 0 <= a < k ==> a % k == a
    ensures k <= a < 2 * k ==> a % k == a - k
    ensures 2 * k <= a < 3 * k ==> a % k == a - 2 * k
  {
    ModWrap(a, k);
  }

  /** The queue held by an array with this head and size. */
  function View<T>(data: seq<T>, head: nat, size: nat): (q: seq<T>)
    requires |data| > 0
    ensures |q| == size
  {
    seq(size, i requires 0 <= i < size => data[Pos(head, i, |data|)])
  }

  /** The array after writing items from whead on, continuing at the start. */
  ghost predicate Written<T>(before: seq<T>, after: seq<T>, whead: nat, items: seq<T>) {
    && |before| == |after| && whead < |before|
    && forall p: nat | p < |before| :: after[p] == Rewritten(before, whead, items, p)
  }

  function Rewritten<T>(before: seq<T>, whead: nat, items: seq<T>, p: nat): T
    requires whead < |before| && p < |before|
  {
    var d := Offset(p, whead, |before|);
    if d < |items| then items[d] else before[p]
  }

  /** Writing at the end of the queue and moving the head past what was overwritten pushes the items. */
  lemma WrittenIsPushed<T>(before: seq<T>, after: seq<T>, head: nat, size: nat, items: seq<T>, over: nat)
    requires |before| > 0 && head <= |before| && size <= |before| && |items| <= |before|
    requires Written(before, after, Pos(head, size, |before|), items)
    requires over == if size + |items| <= |before| then 0 else size + |items| - |before|
    ensures View(after, if over == 0 then head else Pos(head, over, |before|), size + |items| - over)
         == Push(View(before, head, size), items, |before|)
  {
    var max, q := |before|, View(before, head, size);
    var pushed := Push(q, items, max);
    var view := View(after, if over == 0 then head else Pos(head, over, max), size + |items| - over);
    forall i: nat | i < |view| ensures view[i] == pushed[i] {
      if over > 0 {
        PosShift(head, over, i, max);
      }
      PosOffset(head, size, max, over + i);
      assert after[Pos(head, over + i, max)] == Rewritten(before, Pos(head, size, max), items, Pos(head, over + i, max));
    }
  }

  lemma OneWritten<T>(before: seq<T>, whead: nat, x: T)
    requires whead < |before|
    ensures Written(before, before[whead := x], whead, [x])
  {
  }

  lemma OnePushed<T>(before: seq<T>, head: nat, size: nat, x: T, at: nat)
    requires 0 < |before| && head <= |before| && size <= |before| && (head < |before| || size < |before|)
    requires at == if size == |before| then head else (head + size) % |before|
    ensures at < |before|
    ensures size == |before| ==> View(before[at := x], (head + 1) % |before|, size) == Push(View(before, head, size), [x], |before|)
    ensures size < |before| ==> View(before[at := x], head, size + 1) == Push(View(before, head, size), [x], |before|)
  {
    hide View;
    hide Push;
    hide Written;
    ModWrap(head + size, |before|);
    OneWritten(before, at, x);
    WrittenIsPushed(before, before[at := x], head, size, [x], if size == |before| then 1 else 0);
  }

  /** Moving the head past n elements removes them from the queue. */
  lemma RemovedView<T>(data: seq<T>, head: nat, size: nat, n: nat)
    requires 0 < |data| && head <= |data| && n <= size <= |data|
    ensures View(data, HeadAfter(head, n, |data|), size - n) == View(data, head, size)[n..]
  {
    var was, view := View(data, head, size), View(data, HeadAfter(head, n, |data|), size - n);
    forall i: nat | i < size - n ensures view[i] == was[n + i] {
      ModWrap(head + (n + i), |data|);
      ModWrap(HeadAfter(head, n, |data|) + i, |data|);
    }
  }

  /** The first n elements are one stretch of the array, or two when they go round its end. */
  lemma FirstStretch<T>(data: seq<T>, head: nat, size: nat, n: nat)
    requires 0 < |data| && head <= |data| && n <= size <= |data|
    ensures View(data, head, size)[..n]
         == if head + n > |data| then data[head..] + data[..n - (|data| - head)] else data[head..head + n]
  {
    var view := View(data, head, size);
    var stretch := if head + n > |data| then data[head..] + data[..n - (|data| - head)] else data[head..head + n];
    forall i: nat | i < n ensures view[i] == stretch[i] {
      ModWrap(head + i, |data|);
    }
  }

  /** Where the head ends up when n of the stored bytes are removed in a batch. */
  function HeadAfter(head: nat, n: nat, max: nat): nat {
    if n == 0 then head else if head + n > max then head + n - max else head + n
  }

  /** Batch removal leaves the head at max_size exactly when it ends at the end of the array. */
  lemma HeadMayReachEnd(head: nat, n: nat, max: nat)
    requires head <= max && n <= max
    ensures HeadAfter(head, n, max) <= max
    ensures HeadAfter(head, n, max) == max <==> (if n == 0 then head == max else head + n == max || (head == max && n == max))
  {
  }

  /** Going round the end of an array of whole chunks keeps positions on chunk boundaries. */
  lemma PosAligned(head: nat, d: nat, max: nat, c: nat)
    requires 0 < max && head <= max && d <= max && c > 0 && head % c == 0 && d % c == 0 && max % c == 0
    ensures Pos(head, d, max) % c == 0
  {
    ModWrap(head + d, max);
    ModOfMultiple(head, d, c);
    ModOfMultiple(head + d, max, c);
    if head + d == 2 * max {
      ModWrap(0, c);
    }
  }

  predicate Multiple(n: int, c: nat)
    requires c > 0
  {
    n % c == 0
  }

  /** The capacity, the head and the size are on boundaries of chunks of c. */
  ghost predicate OnBoundary(c: nat, max: nat, head: nat, size: nat)
    requires c > 0
  {
    Multiple(max, c) && Multiple(head, c) && Multiple(size, c)
  }

  lemma PushAligned(head: nat, size: nat, max: nat, n: nat, over: nat, c: nat)
    requires 0 < max && head <= max && size <= max && n <= max && c > 0
    requires OnBoundary(c, max, head, size) && Multiple(n, c)
    requires over == if size + n <= max then 0 else size + n - max
    ensures OnBoundary(c, max, if over == 0 then head else Pos(head, over, max), size + n - over)
  {
    ModOfMultiple(size, n, c);
    ModOfMultiple(size + n, max, c);
    ModWrap(0, c);
    PosAligned(head, over, max, c);
  }

  lemma HeadAfterAligned(head: nat, size: nat, n: nat, max: nat, c: nat)
    requires c > 0 && head <= max && n <= size <= max && OnBoundary(c, max, head, size) && Multiple(n, c)
    ensures OnBoundary(c, max, HeadAfter(head, n, max), size - n)
  {
    ModOfMultiple(size, n, c);
    ModOfMultiple(head, n, c);
    ModOfMultiple(head + n, max, c);
  }

  // Whole chunks do not straddle a chunk boundary.
  lemma RoomForChunk(p: nat, max: nat, c: nat)
    requires c > 0 && p % c == 0 && max % c == 0 && p < max
    ensures p + c <= max
  {
    ModOfMultiple(max, p, c);
    if max - p < c {
      ModWrap(max - p, c);
    }
  }

  lemma ChunksUnfold<T>(s: seq<T>, c: nat)
    requires 0 < c <= |s|
    ensures Chunks(s, c) == [s[..c]] + Chunks(s[c..], c)
  {
  }

  lemma Sliced<T>(s: seq<T>, c: nat, at: nat)
    requires c <= at <= at + c <= |s|
    ensures s[c..][at - c..at] == s[at..at + c]
  {
  }

  lemma {:induction false} ChunkAt<T>(s: seq<T>, c: nat, k: nat, at: nat)
    requires c > 0 && at == k * c && at + c <= |s|
    ensures k < |Chunks(s, c)| && Chunks(s, c)[k] == s[at..at + c]
    decreases k
  {
    hide Chunks;
    ChunksUnfold(s, c);
    if k == 0 {
      assert at == 0;
    } else {
      MulSub(k, 1, c);
      MulNonNegative(k - 1, c);
      ChunkAt(s[c..], c, k - 1, at - c);
      Sliced(s, c, at);
    }
  }

  lemma PosNext(head: nat, at: nat, i: nat, max: nat)
    requires 0 < max && head <= max && at + i <= max && Pos(head, at, max) + i < max
    ensures Pos(head, at + i, max) == Pos(head, at, max) + i
  {
    ModWrap(head + at, max);
    ModWrap(head + (at + i), max);
  }

  // An aligned chunk of the queue is stored in one piece.
  lemma ChunkStretch<T>(data: seq<T>, head: nat, size: nat, at: nat, c: nat)
    requires 0 < |data| && head <= |data| && size <= |data| && c > 0 && at + c <= size
    requires Pos(head, at, |data|) + c <= |data|
    ensures View(data, head, size)[at..at + c] == data[Pos(head, at, |data|)..Pos(head, at, |data|) + c]
  {
    hide Pos;
    var view, p := View(data, head, size), Pos(head, at, |data|);
    var piece, stretch := view[at..at + c], data[p..p + c];
    forall i: nat | i < c ensures piece[i] == stretch[i] {
      PosNext(head, at, i, |data|);
    }
  }

  // ---------------------------------------------------------------------------
  // The buffer
  // ---------------------------------------------------------------------------

  class Buffer {
    const maxSize: nat
    const data: array<byte>
    var head: nat
    var size: nat

    ghost predicate Valid()
      reads this
    {
      maxSize > 0 && data.Length == maxSize && head <= maxSize && size <= maxSize
    }

    ghost function Contents(): (q: seq<byte>)
      requires Valid()
      reads this, data
      ensures |q| == size
    {
      View(data[..], head, size)
    }

    /** create_cbuffer_t */
    constructor (capacity: nat)
      requires capacity > 0
      ensures Valid() && Contents() == [] && maxSize == capacity && head < maxSize && fresh(data)
    {
      maxSize, head, size := capacity, 0, 0;
      data := new byte[capacity];
    }

    // memcpy into the array.
    method CopyIn(at: nat, items: seq<byte>)
      requires at + |items| <= data.Length
      modifies data
      ensures forall p | 0 <= p < data.Length ::
                data[p] == if at <= p < at + |items| then items[p - at] else old(data[p])
    {
      for j := 0 to |items|
        invariant forall p | 0 <= p < data.Length ::
                    data[p] == if at <= p < at + j then items[p - at] else old(data[p])
      {
        data[at + j] := items[j];
      }
    }

    // Write items from position whead on, continuing at the start of the array.
    method WriteWrapped(whead: nat, items: seq<byte>)
      requires Valid() && whead < maxSize && |items| <= maxSize
      modifies data
      ensures Written(old(data[..]), data[..], whead, items)
    {
      if whead + |items| > maxSize {
        var copied := maxSize - whead;
        CopyIn(whead, items[..copied]);
        CopyIn(0, items[copied..]);
      } else {
        CopyIn(whead, items);
      }
    }

    /** insert_items_cbuffer_t; a negative count compares as a huge one and is ignored like it. */
    method InsertItems(vitems: seq<byte>, nrItems: int)
      requires Valid() && nrItems <= |vitems|
      modifies this`head, this`size, data
      ensures Valid()
      ensures 0 <= nrItems <= maxSize ==> Contents() == Push(old(Contents()), vitems[..nrItems], maxSize)
      ensures !(0 <= nrItems <= maxSize) ==> Contents() == old(Contents()) && head == old(head)
      ensures old(head) < maxSize ==> head < maxSize
      ensures 0 <= nrItems <= maxSize ==>
                head == if old(size) + nrItems <= maxSize then old(head)
                        else (old(head) + (old(size) + nrItems - maxSize)) % maxSize
      ensures forall c: nat | 0 < c && old(Aligned(c)) && Multiple(nrItems, c) :: Aligned(c)
    {
      if nrItems < 0 || nrItems > maxSize {
        return;
      }
      hide View;
      hide Push;
      hide Written;
      hide OnBoundary;
      hide Multiple;
      var items := vitems[..nrItems];
      ghost var before, over := data[..], if size + nrItems <= maxSize then 0 else size + nrItems - maxSize;
      var nrGaps := maxSize - size;
      WriteWrapped((head + size) % maxSize, items);
      WrittenIsPushed(before, data[..], head, size, items, over);
      if nrGaps >= nrItems {
        size := size + nrItems;
      } else {
        size := maxSize;
        head := (head + (nrItems - nrGaps)) % maxSize;
      }
      forall c: nat | 0 < c && old(Aligned(c)) && Multiple(nrItems, c) ensures Aligned(c) {
        PushAligned(old(head), old(size), maxSize, nrItems, over, c);
      }
    }

    /** remove_items_cbuffer_t; asking for more than is stored, or for a negative count, does nothing. */
    method RemoveItems(nrItems: int) returns (items: seq<byte>)
      requires Valid()
      modifies this`head, this`size
      ensures Valid()
      ensures 0 <= nrItems <= old(size) ==>
                && items == old(Contents())[..nrItems]
                && Contents() == old(Contents())[nrItems..]
                && head == HeadAfter(old(head), nrItems, maxSize)
      ensures !(0 <= nrItems <= old(size)) ==> items == [] && head == old(head) && size == old(size)
      ensures forall c: nat | 0 < c && old(Aligned(c)) && Multiple(nrItems, c) :: Aligned(c)
    {
      hide View;
      hide OnBoundary;
      hide Multiple;
      items := [];
      if nrItems < 0 || nrItems > size {
        return;
      }
      RemovedView(data[..], head, size, nrItems);
      FirstStretch(data[..], head, size, nrItems);
      var left := nrItems;
      if head + left > maxSize {
        items := data[head..];
        left := left - (maxSize - head);
        head := 0;
      }
      if left != 0 {
        items := items + data[head..head + left];
        head := head + left;
      }
      size := size - nrItems;
      forall c: nat | 0 < c && old(Aligned(c)) && Multiple(nrItems, c) ensures Aligned(c) {
        HeadAfterAligned(old(head), old(size), nrItems, maxSize, c);
      }
    }

    /** remove_cbuffer_t_batch: as much as is stored, up to the limit; a negative limit counts as none. */
    method RemoveBatch(maxNrItems: int) returns (items: seq<byte>, nrItems: nat)
      requires Valid()
      modifies this`head, this`size
      ensures Valid()
      ensures nrItems == if maxNrItems < 0 || maxNrItems > old(size) then old(size) else maxNrItems
      ensures items == old(Contents())[..nrItems] && Contents() == old(Contents())[nrItems..]
    {
      nrItems := if maxNrItems < 0 || maxNrItems > size then size else maxNrItems;
      items := [];
      if nrItems != 0 {
        items := RemoveItems(nrItems);
      }
    }

    /** insert_cbuffer_t; only a full buffer is written at its head. */
    method Insert(newItem: byte)
      requires Valid() && (head < maxSize || size < maxSize)
      modifies this`head, this`size, data
      ensures Valid() && (old(head) < maxSize ==> head < maxSize)
      ensures Contents() == Push(old(Contents()), [newItem], maxSize)
    {
      hide View;
      hide Push;
      ghost var before := data[..];
      ModWrap(head + 1, maxSize);
      ghost var at := if size == maxSize then head else (head + size) % maxSize;
      OnePushed(before, head, size, newItem, at);
      if size == maxSize {
        data[head] := newItem;
        head := (head + 1) % maxSize;
      } else {
        var pos := (head + size) % maxSize;
        data[pos] := newItem;
        size := size + 1;
      }
      assert data[..] == before[at := newItem];
    }

    /** remove_cbuffer_t: the oldest byte, or zero when there is none. */
    method Remove() returns (ret: byte)
      requires Valid() && (head < maxSize || size == 0)
      modifies this`head, this`size
      ensures Valid() && (old(head) < maxSize ==> head < maxSize)
      ensures old(size) == 0 ==> ret == 0 && Contents() == []
      ensures old(size) > 0 ==> ret == old(Contents())[0] && Contents() == old(Contents())[1..]
    {
      ret := 0;
      if size != 0 {
        ghost var q := Contents();
        ModWrap(head, maxSize);
        ret := data[head];
        head := (head + 1) % maxSize;
        size := size - 1;
        forall i: nat | i < size ensures Contents()[i] == q[1 + i] {
          PosShift(old(head), 1, i, maxSize);
        }
      }
    }

    /** clear_cbuffer_t */
    method Clear()
      requires Valid()
      modifies this`head, this`size
      ensures Valid() && head == 0 && Contents() == []
    {
      size, head := 0, 0;
    }

    /** Every transfer so far was a whole number of chunks of c bytes. */
    ghost predicate Aligned(c: nat)
      requires c > 0
      reads this
    {
      Valid() && OnBoundary(c, maxSize, head, size)
    }
  }

  /** iterator_cbuffer_t */
  class Iterator {
    const cbuf: Buffer
    const chunkSize: nat
    var curItem: nat
    var curPos: nat

    /** The iterator has passed k chunks of a buffer that has not changed meanwhile. */
    ghost predicate At(k: nat)
      reads this, cbuf
    {
      && chunkSize > 0 && cbuf.Aligned(chunkSize) && cbuf.head < cbuf.maxSize
      && curItem == k * chunkSize <= cbuf.size
      && curPos == Pos(cbuf.head, curItem, cbuf.maxSize)
    }

    /** get_iterator_cbuffer_t */
    constructor (b: Buffer, c: nat)
      requires c > 0 && b.Aligned(c) && b.head < b.maxSize
      ensures cbuf == b && chunkSize == c && At(0)
    {
      cbuf, chunkSize, curItem, curPos := b, c, 0, b.head;
      new;
      ModWrap(b.head, b.maxSize);
    }

    lemma NextChunk(k: nat)
      requires At(k)
      ensures curItem < cbuf.size <==> k < |Chunks(cbuf.Contents(), chunkSize)|
      ensures curItem < cbuf.size ==>
                && curItem + chunkSize == (k + 1) * chunkSize <= cbuf.size
                && curPos + chunkSize <= cbuf.maxSize
                && Pos(cbuf.head, curItem + chunkSize, cbuf.maxSize)
                   == (if curPos + chunkSize >= cbuf.maxSize then curPos + chunkSize - cbuf.maxSize else curPos + chunkSize)
                && cbuf.data[curPos..curPos + chunkSize] == Chunks(cbuf.Contents(), chunkSize)[k]
    {
      hide Chunks;
      hide View;
      var q := cbuf.Contents();
      WholeChunks(q, k * chunkSize, k, chunkSize);
      if curItem < cbuf.size {
        MulSub(k + 1, k, chunkSize);
        ModUnique(curItem, chunkSize, k, 0);
        RoomForChunk(curItem, cbuf.size, chunkSize);
        PosAligned(cbuf.head, curItem, cbuf.maxSize, chunkSize);
        RoomForChunk(curPos, cbuf.maxSize, chunkSize);
        ChunkAt(q, chunkSize, k, curItem);
        ChunkStretch(cbuf.data[..], cbuf.head, cbuf.size, curItem, chunkSize);
        NextPosition(cbuf.head, curItem, cbuf.maxSize, chunkSize);
      }
    }

    /** iterator_next_cbuffer_t: where the next chunk starts, or that there is none. */
    method Next(ghost k: nat) returns (found: bool, pos: nat)
      requires At(k)
      modifies this
      ensures found <==> k < |Chunks(cbuf.Contents(), chunkSize)|
      ensures !found ==> At(k)
      ensures found ==>
                && At(k + 1) && pos + chunkSize <= cbuf.data.Length
                && cbuf.data[pos..pos + chunkSize] == Chunks(cbuf.Contents(), chunkSize)[k]
    {
      hide Chunks;
      hide View;
      hide Pos;
      NextChunk(k);
      if curItem >= cbuf.size {
        return false, 0;
      }
      found, pos := true, curPos;
      curItem := curItem + chunkSize;
      curPos := curPos + chunkSize;
      if curPos >= cbuf.maxSize {
        curPos := curPos - cbuf.maxSize;
      }
    }
  }

  lemma NextPosition(head: nat, at: nat, max: nat, c: nat)
    requires head < max && at + c <= max && Pos(head, at, max) + c <= max
    ensures Pos(head, at + c, max) == if Pos(head, at, max) + c >= max then Pos(head, at, max) + c - max
                                      else Pos(head, at, max) + c
  {
    ModWrap(head + at, max);
    ModWrap(head + at + c, max);
  }

  /** The loop over a buffer its clients run: the iterator delivers exactly the stored chunks, oldest first. */
  method CollectChunks(b: Buffer, c: nat) returns (chunks: seq<seq<byte>>)
    requires c > 0 && b.Aligned(c) && b.head < b.maxSize
    ensures chunks == Chunks(b.Contents(), c)
  {
    hide Chunks;
    hide View;
    hide Pos;
    ghost var all := Chunks(b.Contents(), c);
    var it := new Iterator(b, c);
    chunks := [];
    var found, pos := it.Next(0);
    while found
      invariant fresh(it) && it.cbuf == b && it.chunkSize == c
      invariant |chunks| <= |all| && chunks == all[..|chunks|]
      invariant found ==> |chunks| < |all| && it.At(|chunks| + 1) && 0 <= pos <= pos + c <= b.data.Length
                          && b.data[pos..pos + c] == all[|chunks|]
      invariant !found ==> |chunks| == |all|
      decreases |all| - |chunks|
    {
      chunks := chunks + [b.data[pos..pos + c]];
      found, pos := it.Next(|chunks|);
    }
  }
}
