/** A page of chunks and its bitmap in lib/naming/hmalloc.c as a value. */
module HeapChunks {
  import opened Machine

  const MINSIZE: nat := 16
  const MAXSIZE: nat := 2048
  const SHIFTS: nat := 12
  const WORDBITS: nat := 32

  /** The chunks that a page has room for: pagesize >> shift. */
  function ChunkCount(s: nat): nat
    requires s <= SHIFTS
  {
    Power(SHIFTS - s)
  }

  /** The words of the bitmap. */
  function Words(s: nat): nat
    requires s <= SHIFTS
  {
    (ChunkCount(s) + WORDBITS - 1) / WORDBITS
  }

  /** The bytes of the description: 24 and its bitmap. */
  function HeaderSize(s: nat): nat
    requires s <= SHIFTS
  {
    24 + 4 * Words(s)
  }

  /** The chunks that the description takes from its own page: none if that would be a waste. */
  function Stolen(s: nat): nat
    requires s <= SHIFTS
  {
    if Power(s) <= 2 * HeaderSize(s) then (HeaderSize(s) + Power(s) - 1) / Power(s) else 0
  }

  lemma Table(s: nat)
    requires 4 <= s <= 11
    ensures ChunkCount(s) == (match s
                              case 4 => 256 case 5 => 128 case 6 => 64 case 7 => 32
                              case 8 => 16 case 9 => 8 case 10 => 4 case _ => 2)
    ensures Power(s) == (match s
                         case 4 => 16 case 5 => 32 case 6 => 64 case 7 => 128
                         case 8 => 256 case 9 => 512 case 10 => 1024 case _ => 2048)
    ensures Words(s) == (match s case 4 => 8 case 5 => 4 case 6 => 2 case _ => 1)
    ensures Stolen(s) == (match s case 4 => 4 case 5 => 2 case 6 => 1 case _ => 0)
  {
    assert Power(4) == 16 && Power(8) == 256;
    assert Power(5) == 32 && Power(6) == 64 && Power(7) == 128;
    assert Power(9) == 512 && Power(10) == 1024 && Power(11) == 2048;
    assert Power(1) == 2 && Power(2) == 4 && Power(3) == 8;
  }

  /** The chunks and the page, and the description inside it. */
  lemma PageFilled(s: nat)
    requires 4 <= s <= 11
    ensures ChunkCount(s) * Power(s) == L4_PAGESIZE
    ensures ChunkCount(s) <= WORDBITS * Words(s) && Stolen(s) + 2 <= ChunkCount(s)
    ensures Stolen(s) == 0 || HeaderSize(s) <= Stolen(s) * Power(s)
  {
    Table(s);
  }

  // ---------------------------------------------------------------- sizes

  /** The loop of malloc_bytes: how many bits a number has, at least one. */
  function BitLength(i: nat): nat {
    if i / 2 == 0 then 1 else 1 + BitLength(i / 2)
  }

  /** The shift for a request. */
  function Bucket(size: nat): nat {
    BitLength((if size < MINSIZE then MINSIZE else size) - 1)
  }

  lemma {:induction false} BitLengthBounds(i: nat)
    ensures BitLength(i) >= 1 && i < Power(BitLength(i)) && (i >= 1 ==> Power(BitLength(i) - 1) <= i)
  {
    if i / 2 != 0 {
      BitLengthBounds(i / 2);
    } else {
      assert Power(1) == 2;
    }
  }

  /** The chunk size for a request is the least power of two that is at least 16 and the request. */
  lemma BucketLeast(size: nat)
    requires size <= MAXSIZE
    ensures var j := Bucket(size);
            && 4 <= j <= 11 && size <= Power(j) && MINSIZE <= Power(j)
            && forall k :: 0 <= k < j ==> Power(k) < size || Power(k) < MINSIZE
  {
    var n := if size < MINSIZE then MINSIZE else size;
    var j := Bucket(size);
    BitLengthBounds(n - 1);
    assert Power(4) == 16 && Power(3) == 8;
    assert Power(11) == 2048 by {
      Table(11);
    }
    if j < 4 {
      PowerMonotone(j, 3);
    }
    if j > 11 {
      PowerMonotone(11, j - 1);
    }
    forall k | 0 <= k < j ensures Power(k) < n {
      PowerMonotone(k, j - 1);
    }
  }

  // ---------------------------------------------------------------- bitmaps

  /** How many bits are set from lo to hi. */
  function Count(bits: seq<bool>, lo: nat, hi: nat): (c: nat)
    requires lo <= hi <= |bits|
    ensures c <= hi - lo
    decreases hi - lo
  {
    if lo == hi then 0 else (if bits[lo] then 1 else 0) + Count(bits, lo + 1, hi)
  }

  lemma {:induction false} CountSet(bits: seq<bool>, lo: nat, hi: nat, k: nat, v: bool)
    requires lo <= hi <= |bits| && k < |bits|
    ensures Count(bits[k := v], lo, hi) ==
            Count(bits, lo, hi) + if lo <= k < hi then (if v then 1 else 0) - (if bits[k] then 1 else 0) else 0
    decreases hi - lo
  {
    if lo < hi {
      CountSet(bits, lo + 1, hi, k, v);
    }
  }

  lemma {:induction false} CountFull(bits: seq<bool>, lo: nat, hi: nat)
    requires lo <= hi <= |bits|
    ensures Count(bits, lo, hi) == hi - lo <==> forall k :: lo <= k < hi ==> bits[k]
    ensures Count(bits, lo, hi) == 0 <==> forall k :: lo <= k < hi ==> !bits[k]
    decreases hi - lo
  {
    if lo < hi {
      CountFull(bits, lo + 1, hi);
    }
  }

  /** The first set bit, or |bits|. */
  function FirstBit(bits: seq<bool>): (k: nat)
    ensures k <= |bits|
    ensures k < |bits| ==> bits[k]
    ensures forall j :: 0 <= j < k ==> !bits[j]
  {
    if bits == [] || bits[0] then 0 else 1 + FirstBit(bits[1..])
  }

  // ---------------------------------------------------------------- pages of chunks

  /** struct pginfo. It is an ordinary object here, except that for the three smallest sizes the space
      it takes in its own page is kept out of use, as in the source. */
  datatype PageInfo = PageInfo(shift: nat, free: nat, total: nat, bits: seq<bool>)

  /** `free` counts the set bits among the chunks in use for allocation; the bits before them are
      clear, and those behind them may be anything. */
  ghost predicate Described(i: PageInfo) {
    && 4 <= i.shift <= 11
    && |i.bits| == WORDBITS * Words(i.shift)
    && ChunkCount(i.shift) <= |i.bits| && Stolen(i.shift) + 2 <= ChunkCount(i.shift)
    && i.total == ChunkCount(i.shift) - Stolen(i.shift)
    && (forall k :: 0 <= k < Stolen(i.shift) ==> !i.bits[k])
    && i.free == Count(i.bits, Stolen(i.shift), ChunkCount(i.shift))
  }

  /** The bitmap of a new page; `junk` is what was in memory where it is not initialised. */
  function NewBits(s: nat, junk: seq<bool>): (bits: seq<bool>)
    requires s <= SHIFTS
    ensures |bits| == WORDBITS * Words(s)
    ensures forall k :: 0 <= k < |bits| ==>
              bits[k] == (Stolen(s) <= k && (k < ChunkCount(s) || (k < |junk| && junk[k])))
  {
    seq(WORDBITS * Words(s), k requires 0 <= k => Stolen(s) <= k && (k < ChunkCount(s) || (k < |junk| && junk[k])))
  }

  function NewInfo(s: nat, junk: seq<bool>): PageInfo
    requires s <= SHIFTS && Stolen(s) <= ChunkCount(s)
  {
    var n := ChunkCount(s) - Stolen(s);
    PageInfo(s, n, n, NewBits(s, junk))
  }

  lemma NewDescribed(s: nat, junk: seq<bool>)
    requires 4 <= s <= 11
    ensures Stolen(s) <= ChunkCount(s) && Described(NewInfo(s, junk)) &&
            NewInfo(s, junk).free == NewInfo(s, junk).total >= 2
  {
    PageFilled(s);
    CountFull(NewBits(s, junk), Stolen(s), ChunkCount(s));
  }

  /** malloc_bytes on a page: its first free chunk. */
  function TakeChunk(i: PageInfo): PageInfo
    requires i.free > 0 && FirstBit(i.bits) < |i.bits|
  {
    i.(bits := i.bits[FirstBit(i.bits) := false], free := i.free - 1)
  }

  /** As long as `free` is not 0 the search finds a chunk of the page, not one of the description's
      and no stale bit behind the last chunk. */
  lemma TakeChunkCorrect(i: PageInfo)
    requires Described(i) && i.free > 0
    ensures var k := FirstBit(i.bits);
            && Stolen(i.shift) <= k < ChunkCount(i.shift) && i.bits[k]
            && Described(TakeChunk(i))
  {
    CountFull(i.bits, Stolen(i.shift), ChunkCount(i.shift));
    CountSet(i.bits, Stolen(i.shift), ChunkCount(i.shift), FirstBit(i.bits), false);
  }

  /** free_bytes on a page. */
  function GiveChunk(i: PageInfo, k: nat): PageInfo
    requires k < |i.bits|
  {
    i.(bits := i.bits[k := true], free := i.free + 1)
  }

  /** A chunk in use. */
  ghost predicate InUse(i: PageInfo, k: nat) {
    4 <= i.shift <= 11 && Stolen(i.shift) <= k < ChunkCount(i.shift) && k < |i.bits| && !i.bits[k]
  }

  lemma GiveChunkCorrect(i: PageInfo, k: nat)
    requires Described(i) && InUse(i, k)
    ensures Described(GiveChunk(i, k)) && i.free < i.total
  {
    CountSet(i.bits, Stolen(i.shift), ChunkCount(i.shift), k, true);
    CountFull(i.bits, Stolen(i.shift), ChunkCount(i.shift));
  }

  /** Giving back what was taken restores the page. */
  lemma TakeThenGive(i: PageInfo)
    requires Described(i) && i.free > 0
    ensures FirstBit(i.bits) < |i.bits| && GiveChunk(TakeChunk(i), FirstBit(i.bits)) == i
  {
    TakeChunkCorrect(i);
    var k := FirstBit(i.bits);
    assert i.bits[k := false][k := true] == i.bits;
  }
}
