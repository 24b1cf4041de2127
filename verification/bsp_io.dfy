/**
 * The raw BSP reader (bsp/BSPIO.cpp): copying the lumps of a file into the
 * fixed-size tables of a `CBSPFile`, swapping every field between disk and host
 * order, and the fast checksum of each table.
 *
 * A table's `data` holds the bytes that were stored into it; the bytes past them
 * are zero, as `memset` left them, and the swap leaves zero bytes zero.
 */
module BSPIO {
  import opened Bytes
  import opened Wrappers
  import opened BSPFile

  /** One `BSPData` member of a `CBSPFile`. */
  datatype Table = Table(checksum: int, count: int, data: seq<byte>)

  /** A `CBSPFile`: one table per lump. */
  type Tables = map<LumpKind, Table>

  const ALL_LUMPS: set<LumpKind> :=
    {Entities, Planes, Textures, Vertexes, Visibility, Nodes, Texinfo, Faces,
     Lighting, Clipnodes, Leafs, Marksurfaces, Edges, Surfedges, Models}

  lemma AllLumpsHas(k: LumpKind)
    ensures k in ALL_LUMPS
  {
  }

  lemma AllLumpsComplete()
    ensures forall k: LumpKind :: k in ALL_LUMPS
  {
    forall k: LumpKind
      ensures k in ALL_LUMPS
    {
      AllLumpsHas(k);
    }
  }

  /** The file after `memset(&file, 0, sizeof(file))`. */
  function Cleared(): (f: Tables)
    ensures forall k: LumpKind :: k in f && f[k] == Table(0, 0, [])
  {
    AllLumpsComplete();
    map k | k in ALL_LUMPS :: Table(0, 0, [])
  }

  /** A C `int` converted to `size_t`. */
  function AsSize(v: int32): (r: nat)
    ensures v >= 0 ==> r == v
    ensures v < 0 ==> r >= SIZE_T_MODULUS - 0x8000_0000
  {
    if v >= 0 then v else v + SIZE_T_MODULUS
  }

  /** The lump length passes both checks of `CopyLump` (made on the length converted to `size_t`). */
  predicate LengthAccepted(k: LumpKind, len: int32)
  {
    AsSize(len) % RecordSize(k) == 0 && AsSize(len) <= RecordSize(k) * MaxRecords(k)
  }

  /** No table is larger than 2 MiB. */
  lemma CapacityBound(k: LumpKind)
    ensures 1 <= RecordSize(k) && RecordSize(k) * MaxRecords(k) <= MAX_MAP_MIPTEX
  {
  }

  /**
   * A length is accepted exactly when it is a non-negative whole number of
   * records that fits the table: a negative length becomes too large a `size_t`.
   */
  lemma LengthAcceptedIff(k: LumpKind, len: int32)
    ensures LengthAccepted(k, len) <==>
      0 <= len && len % RecordSize(k) == 0 && len <= RecordSize(k) * MaxRecords(k)
  {
    CapacityBound(k);
  }

  /** `memcpy` of `src` over the start of `dst`. */
  function Overwrite(dst: seq<byte>, src: seq<byte>): (r: seq<byte>)
    ensures |r| == if |dst| > |src| then |dst| else |src|
    ensures r[..|src|] == src
    ensures forall i :: |src| <= i < |dst| ==> r[i] == dst[i]
  {
    if |dst| > |src| then src + dst[|src|..] else src
  }

  /**
   * `CopyLump` as written: rejects a length that is not a whole number of records
   * or that exceeds the table (see LengthAcceptedIff), and otherwise copies the
   * lump's bytes. It sets neither the count nor the checksum.
   */
  function CopyLump(file: seq<byte>, l: Lump, k: LumpKind, t: Table): (r: Outcome<Table>)
    ensures r.Rejected? <==> !LengthAccepted(k, l.filelen)
    ensures r.Crashed? <==> LengthAccepted(k, l.filelen) && !InFile(file, l)
    ensures r.Done? ==> r.value.count == t.count && r.value.checksum == t.checksum
    ensures r.Done? ==> InFile(file, l) && |r.value.data| >= l.filelen
    ensures r.Done? ==> r.value.data[..l.filelen] == file[l.fileofs..l.fileofs + l.filelen]
  {
    if !LengthAccepted(k, l.filelen) then Rejected
    else if !InFile(file, l) then Crashed
    else Done(t.(data := Overwrite(t.data, LumpBytes(file, l))))
  }

  // ---------------------------------------------------------------------------
  // Byte swapping

  /** `LittleValue` applied to each field of one record laid out as `layout`. */
  function SwapFields(host: Endian, layout: seq<nat>, rec: seq<byte>): (r: seq<byte>)
    ensures |r| == |rec|
    ensures host == LittleEndian ==> r == rec
    ensures |rec| >= Sum(layout) ==> r[Sum(layout)..] == rec[Sum(layout)..]
  {
    if |layout| == 0 || |rec| < layout[0] then rec
    else LittleValue(host, rec[..layout[0]]) + SwapFields(host, layout[1..], rec[layout[0]..])
  }

  /** Where field `j` of a record laid out as `layout` starts. */
  function FieldOffset(layout: seq<nat>, j: nat): (o: nat)
    requires j < |layout|
    ensures o + layout[j] <= Sum(layout)
  {
    if j == 0 then 0 else layout[0] + FieldOffset(layout[1..], j - 1)
  }

  /** Field `j` of a swapped record: `LittleValue` of the same bytes of the original. */
  lemma {:induction false} SwapFieldsAt(host: Endian, layout: seq<nat>, rec: seq<byte>, j: nat, lo: nat, hi: nat)
    requires j < |layout| && lo == FieldOffset(layout, j) && hi == lo + layout[j] && hi <= |rec|
    ensures SwapFields(host, layout, rec)[lo..hi] == LittleValue(host, rec[lo..hi])
    decreases j
  {
    var w := layout[0];
    var head := LittleValue(host, rec[..w]);
    var tail := SwapFields(host, layout[1..], rec[w..]);
    assert SwapFields(host, layout, rec) == head + tail;
    if j == 0 {
      SliceOfHead(head, tail, w);
      assert rec[lo..hi] == rec[..w];
    } else {
      var lo2, hi2 := lo - w, hi - w;
      SwapFieldsAt(host, layout[1..], rec[w..], j - 1, lo2, hi2);
      SliceAfterHead(head, tail, lo, hi, lo2, hi2);
      SliceOfDrop(rec, w, lo, hi, lo2, hi2);
      assert tail[lo2..hi2] == LittleValue(host, rec[lo..hi]);
    }
  }

  /** `LittleValue` applied to each field of the first `n` records. */
  function SwapRecords(host: Endian, layout: seq<nat>, data: seq<byte>, n: int): (r: seq<byte>)
    ensures |r| == |data|
    ensures host == LittleEndian ==> r == data
    ensures 0 <= n && n * Sum(layout) <= |data| ==> r[n * Sum(layout)..] == data[n * Sum(layout)..]
    decreases n
  {
    var size := Sum(layout);
    if n <= 0 || size == 0 then data
    else
      var before, total := (n - 1) * size, n * size;
      MulPred(n, size);
      MulMono(0, n - 1, size);
      if |data| < size then data
      else
        var head := SwapFields(host, layout, data[..size]);
        var tail := SwapRecords(host, layout, data[size..], n - 1);
        SuffixAfterHead(head, tail, data, size, before, total);
        head + tail
  }

  /**
   * A first record of `size` bytes followed by a tail that keeps the bytes of
   * `data[size..]` from `m` on keeps the bytes of `data` from `size + m` on.
   */
  lemma SuffixAfterHead(head: seq<byte>, tail: seq<byte>, data: seq<byte>, size: nat, m: int, total: int)
    requires |head| == size <= |data| && |tail| == |data| - size && total == size + m
    requires 0 <= m <= |tail| ==> tail[m..] == data[size..][m..]
    ensures 0 <= m && total <= |data| ==> (head + tail)[total..] == data[total..]
  {
  }

  /** One record fewer is `size` bytes fewer. */
  lemma MulPred(n: int, size: nat)
    requires n > 0
    ensures n * size == size + (n - 1) * size
  {
  }

  /** A slice past a head of known length is the same slice of the tail. */
  lemma SliceAfterHead(head: seq<byte>, tail: seq<byte>, lo: int, hi: int, lo2: int, hi2: int)
    requires 0 <= lo2 <= hi2 <= |tail| && lo == |head| + lo2 && hi == |head| + hi2
    ensures (head + tail)[lo..hi] == tail[lo2..hi2]
  {
  }

  /** A slice of a suffix is a slice of the whole, shifted. */
  lemma SliceOfDrop(data: seq<byte>, d: int, lo: int, hi: int, lo2: int, hi2: int)
    requires 0 <= d <= |data| && 0 <= lo2 <= hi2 <= |data| - d && lo == d + lo2 && hi == d + hi2
    ensures data[d..][lo2..hi2] == data[lo..hi]
  {
  }

  /** The first `|head|` bytes of `head + tail` are `head`. */
  lemma SliceOfHead(head: seq<byte>, tail: seq<byte>, hi: int)
    requires hi == |head|
    ensures (head + tail)[0..hi] == head
  {
  }

  /** `k` records of `size` bytes, counted one record at a time. */
  function Times(k: nat, size: nat): (r: nat)
  {
    if k == 0 then 0 else size + Times(k - 1, size)
  }

  lemma {:induction false} TimesIsProduct(k: nat, size: nat)
    ensures Times(k, size) == k * size
  {
    if k > 0 {
      TimesIsProduct(k - 1, size);
    }
  }

  /** `f` applied to each of the first `n` records of `size` bytes, the bytes after them kept. */
  function MapRecords(f: seq<byte> -> seq<byte>, size: nat, data: seq<byte>, n: int): seq<byte>
    decreases n
  {
    if n <= 0 || size == 0 || |data| < size then data
    else f(data[..size]) + MapRecords(f, size, data[size..], n - 1)
  }

  /** A record map of a length-keeping `f` keeps the length. */
  lemma {:induction false} MapRecordsLength(f: seq<byte> -> seq<byte>, size: nat, data: seq<byte>, n: int)
    requires forall x :: |f(x)| == |x|
    ensures |MapRecords(f, size, data, n)| == |data|
    decreases n
  {
    if n > 0 && size > 0 && |data| >= size {
      MapRecordsLength(f, size, data[size..], n - 1);
    }
  }

  /** Record `k`, found at byte `lo`, of a record map: `f` of that record. */
  lemma {:induction false} MapRecordsFrom(f: seq<byte> -> seq<byte>, size: nat, data: seq<byte>, n: int, k: nat, lo: nat)
    requires forall x :: |f(x)| == |x|
    requires size > 0 && k < n && lo == Times(k, size) && lo + size <= |data|
    ensures |MapRecords(f, size, data, n)| == |data|
    ensures MapRecords(f, size, data, n)[lo..lo + size] == f(data[lo..lo + size])
    decreases k
  {
    MapRecordsLength(f, size, data, n);
    var head := f(data[..size]);
    var tail := MapRecords(f, size, data[size..], n - 1);
    assert MapRecords(f, size, data, n) == head + tail;
    MapRecordsLength(f, size, data[size..], n - 1);
    if k == 0 {
      SliceOfHead(head, tail, size);
      assert data[lo..lo + size] == data[..size];
    } else {
      var before := lo - size;
      MapRecordsFrom(f, size, data[size..], n - 1, k - 1, before);
      SliceAfterHead(head, tail, lo, lo + size, before, before + size);
      SliceOfDrop(data, size, lo, lo + size, before, before + size);
    }
  }

  /** `SwapFields` as a function of the record alone. */
  function FieldSwapper(host: Endian, layout: seq<nat>): (f: seq<byte> -> seq<byte>)
    ensures forall x :: f(x) == SwapFields(host, layout, x)
  {
    rec => SwapFields(host, layout, rec)
  }

  /** Swapping records is the record map of `SwapFields`. */
  lemma {:induction false} SwapRecordsIsMap(host: Endian, layout: seq<nat>, data: seq<byte>, n: int)
    ensures SwapRecords(host, layout, data, n) == MapRecords(FieldSwapper(host, layout), Sum(layout), data, n)
    decreases n
  {
    var size := Sum(layout);
    if n > 0 && size > 0 && |data| >= size {
      SwapRecordsIsMap(host, layout, data[size..], n - 1);
    }
  }

  /** Record `k` of the first `n`, bytes `lo` to `hi`: its fields swapped as by `SwapFields`. */
  lemma SwapRecordsAt(host: Endian, layout: seq<nat>, data: seq<byte>, n: int, k: nat, lo: nat, hi: nat)
    requires k < n && Sum(layout) > 0 && lo == k * Sum(layout) && hi == lo + Sum(layout) && hi <= |data|
    ensures SwapRecords(host, layout, data, n)[lo..hi] == SwapFields(host, layout, data[lo..hi])
  {
    var f := FieldSwapper(host, layout);
    var size := Sum(layout);
    TimesIsProduct(k, size);
    SwapRecordsIsMap(host, layout, data, n);
    MapRecordsFrom(f, size, data, n, k, lo);
    assert lo + size == hi;
    assert MapRecords(f, size, data, n)[lo..hi] == f(data[lo..hi]);
    assert f(data[lo..hi]) == SwapFields(host, layout, data[lo..hi]);
  }


  lemma {:induction false} SwapFieldsInvolutive(host: Endian, layout: seq<nat>, rec: seq<byte>)
    ensures SwapFields(host, layout, SwapFields(host, layout, rec)) == rec
    decreases |layout|
  {
    if |layout| > 0 && |rec| >= layout[0] {
      var w := layout[0];
      var a, b := rec[..w], rec[w..];
      var s := SwapFields(host, layout, rec);
      assert s == LittleValue(host, a) + SwapFields(host, layout[1..], b);
      assert s[..w] == LittleValue(host, a);
      assert s[w..] == SwapFields(host, layout[1..], b);
      LittleValueInvolutive(host, a);
      SwapFieldsInvolutive(host, layout[1..], b);
      assert rec == a + b;
    }
  }

  /** Swapping records whose first record is `x`: that record's fields, then the `m` records after it. */
  lemma SwapRecordsStep(host: Endian, layout: seq<nat>, x: seq<byte>, y: seq<byte>, n: int, m: int)
    requires n > 0 && m == n - 1 && Sum(layout) > 0 && |x| == Sum(layout)
    ensures SwapRecords(host, layout, x + y, n) == SwapFields(host, layout, x) + SwapRecords(host, layout, y, m)
  {
    assert (x + y)[..|x|] == x;
    assert (x + y)[|x|..] == y;
  }

  lemma SwapRecordsInvolutive(host: Endian, layout: seq<nat>, data: seq<byte>, n: int)
    ensures SwapRecords(host, layout, SwapRecords(host, layout, data, n), n) == data
  {
    SwapsBackAlways(host, layout, data, n);
  }

  /** Swapping the first `n` records of `data` twice gives `data` back. */
  predicate SwapsBack(host: Endian, layout: seq<nat>, data: seq<byte>, n: int)
  {
    SwapRecords(host, layout, SwapRecords(host, layout, data, n), n) == data
  }

  lemma {:induction false} SwapsBackAlways(host: Endian, layout: seq<nat>, data: seq<byte>, n: int)
    ensures SwapsBack(host, layout, data, n)
    decreases n
  {
    var size := Sum(layout);
    if n > 0 && size > 0 && |data| >= size {
      var m := n - 1;
      forall rest: seq<byte>
        ensures SwapsBack(host, layout, rest, m)
      {
        SwapsBackAlways(host, layout, rest, m);
      }
      assert data == data[..size] + data[size..];
      SwapsBackCons(host, layout, data, data[..size], data[size..], n, m);
    }
  }

  /** The involution for a table whose first record is `x`, given it for every table of `m` records. */
  lemma SwapsBackCons(host: Endian, layout: seq<nat>, data: seq<byte>, x: seq<byte>, y: seq<byte>, n: int, m: int)
    requires n > 0 && m == n - 1 && Sum(layout) > 0 && |x| == Sum(layout) && data == x + y
    requires forall rest :: SwapsBack(host, layout, rest, m)
    ensures SwapsBack(host, layout, data, n)
  {
    assert SwapsBack(host, layout, y, m);
    SwapFieldsInvolutive(host, layout, x);
    var fx, ry := SwapFields(host, layout, x), SwapRecords(host, layout, y, m);
    SwapRecordsStep(host, layout, x, y, n, m);
    SwapRecordsStep(host, layout, fx, ry, n, m);
  }

  /** The bytes of `data` followed by zeros up to `n` bytes: what the table holds in memory. */
  function Pad(data: seq<byte>, n: nat): (r: seq<byte>)
    ensures |r| == if |data| >= n then |data| else n
    ensures r[..|data|] == data
    ensures forall i :: |data| <= i < |r| ==> r[i] == 0
  {
    if |data| >= n then data else data + seq(n - |data|, _ => 0)
  }

  /** The number of `dataofs` entries the swap of the texture lump visits. */
  function MiptexCount(todisk: bool, host: Endian, raw: seq<byte>): int
    requires |raw| == 4
  {
    if todisk then Signed32(HostValue(host, raw)) else HostInt(host, raw)
  }

  /**
   * The texture lump: when its count is non-zero, `nummiptex` and the first
   * `nummiptex` offsets are swapped. The number of offsets is read before the swap
   * when going to disk and after it when coming from disk, so it is host order
   * either way.
   */
  function SwapMiptex(todisk: bool, host: Endian, t: Table): (r: Table)
    ensures r.count == t.count && r.checksum == t.checksum
    ensures t.count == 0 ==> r == t
    ensures t.count != 0 ==> |r.data| >= 4
    ensures t.count != 0 && |t.data| >= 4 ==> |r.data| == |t.data|
    ensures t.count != 0 && !todisk ==> HostValue(host, r.data[..4]) == LeValue(Pad(t.data, 4)[..4])
  {
    if t.count == 0 then t
    else
      var d := Pad(t.data, 4);
      var raw := d[..4];
      var c := MiptexCount(todisk, host, raw);
      var r := t.(data := LittleValue(host, raw) + SwapRecords(host, Repeat(4, 1), d[4..], c));
      assert r.data[..4] == LittleValue(host, raw);
      LittleValueReadsLittleEndian(host, raw);
      r
  }

  /** The swap of one table. */
  function SwapTable(todisk: bool, host: Endian, k: LumpKind, t: Table): (r: Table)
    ensures r.count == t.count && r.checksum == t.checksum
  {
    if k == Textures then SwapMiptex(todisk, host, t)
    else t.(data := SwapRecords(host, Layout(k), t.data, t.count))
  }

  /**
   * Outside the texture lump, the swap of a table turns each of its first
   * `count` records into its fields swapped, and leaves the bytes after them.
   */
  lemma SwapTableRecords(todisk: bool, host: Endian, k: LumpKind, t: Table, i: nat, lo: nat, hi: nat)
    requires k != Textures && 0 <= t.count && t.count * RecordSize(k) <= |t.data|
    requires i < t.count && lo == i * RecordSize(k) && hi == lo + RecordSize(k)
    ensures hi <= t.count * RecordSize(k)
    ensures SwapTable(todisk, host, k, t).data[lo..hi] == SwapFields(host, Layout(k), t.data[lo..hi])
    ensures SwapTable(todisk, host, k, t).data[t.count * RecordSize(k)..] == t.data[t.count * RecordSize(k)..]
  {
    LayoutAddsUpToRecordSize(k);
    CapacityBound(k);
    MulMono(i + 1, t.count, RecordSize(k));
    MulPred(i + 1, RecordSize(k));
    SwapRecordsAt(host, Layout(k), t.data, t.count, i, lo, hi);
  }


  /** `SwapBSPFile`: swaps every table between disk and host order. */
  function SwapBSPFile(todisk: bool, host: Endian, f: Tables): (r: Tables)
    ensures r.Keys == f.Keys
    ensures forall k :: k in f ==> r[k] == SwapTable(todisk, host, k, f[k])
  {
    map k | k in f :: SwapTable(todisk, host, k, f[k])
  }

  /** The texture lump's header is stored whenever its count is non-zero. */
  predicate MiptexStored(f: Tables)
  {
    Textures in f ==> f[Textures].count == 0 || |f[Textures].data| >= 4
  }

  lemma SwapMiptexRoundTrip(host: Endian, t: Table, todisk: bool)
    requires t.count == 0 || |t.data| >= 4
    ensures SwapMiptex(todisk, host, SwapMiptex(!todisk, host, t)) == t
  {
    if t.count != 0 {
      var raw := t.data[..4];
      var rest := t.data[4..];
      var c := MiptexCount(!todisk, host, raw);
      var once := SwapMiptex(!todisk, host, t);
      var twice := SwapMiptex(todisk, host, once);
      SwapMiptexParts(!todisk, host, t);
      SwapMiptexParts(todisk, host, once);
      MiptexCountSurvivesSwap(todisk, host, raw);
      LittleValueInvolutive(host, raw);
      SwapRecordsInvolutive(host, Repeat(4, 1), rest, c);
      assert twice.data[..4] == raw && twice.data[4..] == rest;
      assert twice.data == twice.data[..4] + twice.data[4..];
      assert t.data == raw + rest;
    }
  }

  /** The count read on the way back equals the count read on the way there. */
  lemma MiptexCountSurvivesSwap(todisk: bool, host: Endian, raw: seq<byte>)
    requires |raw| == 4
    ensures |LittleValue(host, raw)| == 4
    ensures MiptexCount(todisk, host, LittleValue(host, raw)) == MiptexCount(!todisk, host, raw)
  {
    LittleValueInvolutive(host, raw);
    LittleValueReadsLittleEndian(host, raw);
    LittleValueReadsLittleEndian(host, LittleValue(host, raw));
  }

  /** A stored texture header splits the swap into the count and the offsets behind it. */
  lemma SwapMiptexParts(todisk: bool, host: Endian, t: Table)
    requires t.count != 0 && |t.data| >= 4
    ensures SwapMiptex(todisk, host, t).data[..4] == LittleValue(host, t.data[..4])
    ensures SwapMiptex(todisk, host, t).data[4..]
         == SwapRecords(host, Repeat(4, 1), t.data[4..], MiptexCount(todisk, host, t.data[..4]))
  {
    assert Pad(t.data, 4) == t.data;
  }

  lemma SwapTableRoundTrip(host: Endian, k: LumpKind, t: Table, todisk: bool)
    requires k == Textures ==> t.count == 0 || |t.data| >= 4
    ensures SwapTable(todisk, host, k, SwapTable(!todisk, host, k, t)) == t
  {
    if k == Textures {
      SwapMiptexRoundTrip(host, t, todisk);
    } else {
      SwapRecordsInvolutive(host, Layout(k), t.data, t.count);
    }
  }

  /**
   * Swapping to host order and back to disk order, or the other way round, gives
   * back the file.
   */
  lemma SwapBSPFileRoundTrip(host: Endian, f: Tables, todisk: bool)
    requires MiptexStored(f)
    ensures SwapBSPFile(todisk, host, SwapBSPFile(!todisk, host, f)) == f
  {
    var g := SwapBSPFile(todisk, host, SwapBSPFile(!todisk, host, f));
    forall k | k in f
      ensures g[k] == f[k]
    {
      SwapTableRoundTrip(host, k, f[k], todisk);
    }
  }

  /** On a little-endian host the swap changes nothing. */
  lemma SwapIsIdentityOnLittleEndian(f: Tables, todisk: bool)
    requires MiptexStored(f)
    ensures SwapBSPFile(todisk, LittleEndian, f) == f
  {
    forall k | k in f
      ensures SwapTable(todisk, LittleEndian, k, f[k]) == f[k]
    {
      if k == Textures && f[k].count != 0 {
        var d := Pad(f[k].data, 4);
        assert d[..4] + d[4..] == d;
      }
    }
  }

  // ---------------------------------------------------------------------------
  // Checksums

  /** `_rotl(x, 4)` on a 32-bit value. */
  function Rotl4(x: nat): (r: nat)
    requires x < U32
    ensures r < U32
  {
    (x * 16) % U32 + x / 0x1000_0000
  }

  /** A (signed) `char`, promoted to `int` and seen as 32 unsigned bits. */
  function CharBits(b: byte): (r: nat)
    ensures r < U32
    ensures Signed32(r) == if b < 128 then b as int else b as int - 256
  {
    if b < 128 then b else b + 0xFFFF_FF00
  }

  function ChecksumStep(x: nat, b: byte): (r: nat)
    requires x < U32
    ensures r < U32
  {
    Xor(Rotl4(x), CharBits(b)) % U32
  }

  /** Reference definition: the checksum state after folding the bytes in order, starting from 0. */
  function ChecksumOf(bs: seq<byte>): (r: nat)
    ensures r < U32
  {
    if |bs| == 0 then 0 else ChecksumStep(ChecksumOf(bs[..|bs| - 1]), bs[|bs| - 1])
  }

  /** `FastChecksum` over the first `bytes` bytes of `buffer`. */
  method FastChecksum(buffer: seq<byte>, bytes: int) returns (checksum: int)
    requires 0 <= bytes <= |buffer|
    ensures checksum == Signed32(ChecksumOf(buffer[..bytes]))
    ensures bytes == 0 ==> checksum == 0
  {
    var x: nat := 0;
    var remaining := bytes;
    var p := 0;
    while remaining != 0
      invariant 0 <= remaining && p + remaining == bytes
      invariant x == ChecksumOf(buffer[..p])
    {
      assert buffer[..p + 1][..p] == buffer[..p];
      x := ChecksumStep(x, buffer[p]);
      p := p + 1;
      remaining := remaining - 1;
    }
    checksum := Signed32(x);
  }

  /** `FastBSPDataChecksum`: the checksum of the table's first `count` records. */
  function TableChecksum(k: LumpKind, t: Table): int
    requires t.count >= 0
  {
    var n := t.count * RecordSize(k);
    Signed32(ChecksumOf(Pad(t.data, n)[..n]))
  }

  /** Every table but the mark-surface one gets its checksum; that one keeps 0. */
  function Checksummed(f: Tables): (r: Tables)
    requires forall k :: k in f ==> f[k].count >= 0
    ensures r.Keys == f.Keys
    ensures forall k :: k in f ==> r[k].count == f[k].count && r[k].data == f[k].data
    ensures forall k :: k in f && k != Marksurfaces ==> r[k].checksum == TableChecksum(k, f[k])
    ensures Marksurfaces in f ==> r[Marksurfaces] == f[Marksurfaces]
  {
    map k | k in f :: if k == Marksurfaces then f[k] else f[k].(checksum := TableChecksum(k, f[k]))
  }

  // ---------------------------------------------------------------------------
  // Loading

  /** The number of `int`s in the header. */
  const HEADER_INTS: nat := HEADER_SIZE / 4

  /**
   * The file's buffer once a loader has swapped the header's ints in place
   * (`LittleValue` of each of the first `HEADER_INTS` ints). Every lump is then
   * read from this buffer, so a lump that overlaps the header sees the swapped
   * bytes; the header itself reads on the host as `ReadHeader` of the file.
   */
  function InPlaceHeader(host: Endian, file: seq<byte>): (b: seq<byte>)
    requires |file| >= HEADER_SIZE
    ensures |b| == |file|
    ensures b[HEADER_SIZE..] == file[HEADER_SIZE..]
    ensures host == LittleEndian ==> b == file
  {
    assert Sum([4]) == 4;
    SwapRecords(host, [4], file, HEADER_INTS)
  }

  /** Header int `i` in the buffer is the file's int swapped, and the host reads it as the file's value. */
  lemma InPlaceHeaderAt(host: Endian, file: seq<byte>, i: nat, lo: nat, hi: nat)
    requires |file| >= HEADER_SIZE && i < HEADER_INTS && lo == 4 * i && hi == lo + 4
    ensures InPlaceHeader(host, file)[lo..hi] == LittleValue(host, file[lo..hi])
    ensures Signed32(HostValue(host, InPlaceHeader(host, file)[lo..hi])) == IntAt(file, lo)
  {
    assert Sum([4]) == 4;
    SwapRecordsAt(host, [4], file, HEADER_INTS, i, lo, hi);
    var rec := file[lo..hi];
    SwapFieldsAt(host, [4], rec, 0, 0, 4);
    assert rec[0..4] == rec;
    HostIntIsLittleEndian(host, rec);
  }

  /** A lump past the header, or any lump on a little-endian host, has the same bytes in the buffer as in the file. */
  lemma LumpPastHeader(host: Endian, file: seq<byte>, l: Lump)
    requires |file| >= HEADER_SIZE && InFile(file, l)
    requires l.fileofs >= HEADER_SIZE || host == LittleEndian
    ensures LumpBytes(InPlaceHeader(host, file), l) == LumpBytes(file, l)
  {
    var b := InPlaceHeader(host, file);
    if host == BigEndian {
      forall j | HEADER_SIZE <= j < |file|
        ensures b[j] == file[j]
      {
        assert b[HEADER_SIZE..][j - HEADER_SIZE] == file[HEADER_SIZE..][j - HEADER_SIZE];
      }
    }
  }

  /**
   * On a big-endian host, a lump that overlaps the header holds the header's
   * bytes swapped: a 124-byte file of version 30 whose entity lump is its first
   * four bytes copies `[0, 0, 0, 30]`, not the disk bytes `[30, 0, 0, 0]`.
   */
  lemma HeaderOverlapSwapped()
    ensures var file := [30 as byte, 0, 0, 0, 0, 0, 0, 0, 4] + seq(HEADER_SIZE - 9, _ => 0 as byte);
      && |file| == HEADER_SIZE
      && LumpOf(ReadHeader(file), Entities) == Lump(0, 4)
      && LumpBytes(file, Lump(0, 4)) == [30, 0, 0, 0]
      && LumpBytes(InPlaceHeader(BigEndian, file), Lump(0, 4)) == [0, 0, 0, 30]
  {
    var file := [30 as byte, 0, 0, 0, 0, 0, 0, 0, 4] + seq(HEADER_SIZE - 9, _ => 0 as byte);
    assert file[0..4] == [30, 0, 0, 0];
    assert file[4..8] == [0, 0, 0, 0];
    assert file[8..12] == [4, 0, 0, 0];
    EntityLumpFirstFour(file);
  }

  /** A file whose entity lump is its first four bytes: the buffer holds those bytes swapped. */
  lemma EntityLumpFirstFour(file: seq<byte>)
    requires |file| >= HEADER_SIZE && file[4..8] == [0, 0, 0, 0] && file[8..12] == [4, 0, 0, 0]
    ensures LumpOf(ReadHeader(file), Entities) == Lump(0, 4)
    ensures LumpBytes(file, Lump(0, 4)) == file[0..4]
    ensures LumpBytes(InPlaceHeader(BigEndian, file), Lump(0, 4)) == LittleValue(BigEndian, file[0..4])
  {
    assert Int32([0, 0, 0, 0]) == 0 && Int32([4, 0, 0, 0]) == 4;
    assert ReadHeader(file).lumps[0] == Lump(IntAt(file, 4), IntAt(file, 8));
    InPlaceHeaderAt(BigEndian, file, 0, 0, 4);
  }

  /** A length that is a multiple of the record size is exactly the whole records in it. */
  lemma WholeRecords(len: nat, size: nat, n: nat)
    requires size >= 1 && len % size == 0 && n * size <= len < n * size + size
    ensures n * size == len
  {
    var q := len / size;
    assert q * size == len;
    if q > n {
      MulMono(n + 1, q, size);
      assert false;
    } else if q < n {
      MulMono(q + 1, n, size);
      assert false;
    }
  }

  /** `CopyLump` of a lump into a cleared table, from the buffer whose header is swapped in place. */
  function CopyFromFile(host: Endian, file: seq<byte>, k: LumpKind): Outcome<Table>
    requires |file| >= HEADER_SIZE
  {
    CopyLump(InPlaceHeader(host, file), LumpOf(ReadHeader(file), k), k, Table(0, 0, []))
  }

  /** The table a lump is copied into, with or without its record count set. */
  function Copied(host: Endian, file: seq<byte>, k: LumpKind, setsCount: bool): (t: Table)
    requires |file| >= HEADER_SIZE && CopyFromFile(host, file, k).Done?
    ensures t.count >= 0
    ensures t.checksum == 0
    ensures InFile(file, LumpOf(ReadHeader(file), k))
    ensures t.data == LumpBytes(InPlaceHeader(host, file), LumpOf(ReadHeader(file), k))
    ensures LumpOf(ReadHeader(file), k).fileofs >= HEADER_SIZE || host == LittleEndian ==>
      t.data == LumpBytes(file, LumpOf(ReadHeader(file), k))
    ensures !setsCount ==> t.count == 0
    ensures setsCount ==> t.count * RecordSize(k) == LumpOf(ReadHeader(file), k).filelen
  {
    var l := LumpOf(ReadHeader(file), k);
    var c := CopyFromFile(host, file, k).value;
    assert l.fileofs >= HEADER_SIZE || host == LittleEndian ==>
      LumpBytes(InPlaceHeader(host, file), l) == LumpBytes(file, l) by {
      if l.fileofs >= HEADER_SIZE || host == LittleEndian {
        LumpPastHeader(host, file, l);
      }
    }
    if setsCount then
      LengthAcceptedIff(k, l.filelen);
      var n := |Records(c.data, RecordSize(k))|;
      WholeRecords(l.filelen, RecordSize(k), n);
      c.(count := n)
    else c
  }

  /** Every lump passes the checks of `CopyLump` and lies in the file. */
  predicate AllCopied(host: Endian, file: seq<byte>)
    requires |file| >= HEADER_SIZE
  {
    forall k: LumpKind :: CopyFromFile(host, file, k).Done?
  }

  /** The table of a lump after the swap to host order and the checksum. */
  function FinishedTable(host: Endian, file: seq<byte>, k: LumpKind, setsCount: bool): Table
    requires |file| >= HEADER_SIZE && CopyFromFile(host, file, k).Done?
  {
    FinishTable(host, k, Copied(host, file, k, setsCount))
  }

  /** A copied table swapped to host order and, unless it is the mark-surface one, checksummed. */
  function FinishTable(host: Endian, k: LumpKind, c: Table): Table
    requires c.count >= 0
  {
    var t := SwapTable(false, host, k, c);
    if k == Marksurfaces then t else t.(checksum := TableChecksum(k, t))
  }

  /** The tables after the swap to host order and the checksums. */
  function Finished(host: Endian, file: seq<byte>, setsCount: bool): (f: Tables)
    requires |file| >= HEADER_SIZE && AllCopied(host, file)
    ensures forall k: LumpKind :: k in f && f[k] == FinishedTable(host, file, k, setsCount)
  {
    var raw := map k: LumpKind | true :: Copied(host, file, k, setsCount);
    var swapped := SwapBSPFile(false, host, raw);
    assert forall k :: k in swapped ==> swapped[k].count >= 0;
    var f := Checksummed(swapped);
    assert forall k: LumpKind :: k in f && f[k] == FinishedTable(host, file, k, setsCount) by {
      forall k: LumpKind
        ensures k in f && f[k] == FinishedTable(host, file, k, setsCount)
      {
        FinishedAt(host, raw, k);
      }
    }
    f
  }

  lemma FinishedAt(host: Endian, raw: Tables, k: LumpKind)
    requires k in raw && forall j :: j in raw ==> raw[j].count >= 0
    ensures var s := SwapBSPFile(false, host, raw);
      (forall j :: j in s ==> s[j].count >= 0) && k in s &&
      Checksummed(s)[k] == FinishTable(host, k, raw[k])
  {
    var s := SwapBSPFile(false, host, raw);
    var t := SwapTable(false, host, k, raw[k]);
    assert s[k] == t;
    var r := Checksummed(s);
    if k == Marksurfaces {
      assert r[k] == t;
    } else {
      assert r[k] == t.(checksum := TableChecksum(k, t));
    }
  }

  /**
   * `LoadBSPFile` on the bytes of a file. `setsCount` says whether copying a lump
   * records how many records it holds: the source never does (see LoadBSPFileAsWritten).
   */
  function LoadBSPFileWith(host: Endian, file: seq<byte>, setsCount: bool): (r: Outcome<Tables>)
    ensures |file| < HEADER_SIZE ==> r.Crashed?
    ensures |file| >= HEADER_SIZE && ReadHeader(file).version != BSPVERSION ==> r.Rejected?
    ensures r.Done? ==> |file| >= HEADER_SIZE && AllCopied(host, file) && r.value == Finished(host, file, setsCount)
  {
    if |file| < HEADER_SIZE then Crashed
    else
      var h := ReadHeader(file);
      if h.version != BSPVERSION then Rejected
      else if exists k: LumpKind :: CopyFromFile(host, file, k).Crashed? then Crashed
      else if exists k: LumpKind :: CopyFromFile(host, file, k).Rejected? then Rejected
      else Done(Finished(host, file, setsCount))
  }

  /** The source as written: counts are never set. */
  function LoadBSPFileAsWritten(host: Endian, file: seq<byte>): Outcome<Tables>
  {
    LoadBSPFileWith(host, file, false)
  }

  /** The loader with `CopyLump` recording the number of records copied. */
  function LoadBSPFile(host: Endian, file: seq<byte>): Outcome<Tables>
  {
    LoadBSPFileWith(host, file, true)
  }

  /** A lump is a whole number of records that fits its table and lies in the file. */
  predicate LumpLoads(file: seq<byte>, l: Lump, k: LumpKind)
  {
    0 <= l.filelen && l.filelen % RecordSize(k) == 0 &&
    l.filelen <= RecordSize(k) * MaxRecords(k) && InFile(file, l)
  }

  lemma CopyFromFileDone(host: Endian, file: seq<byte>, k: LumpKind)
    requires |file| >= HEADER_SIZE
    ensures CopyFromFile(host, file, k).Done? <==> LumpLoads(file, LumpOf(ReadHeader(file), k), k)
  {
    LengthAcceptedIff(k, LumpOf(ReadHeader(file), k).filelen);
  }

  /** A file loads exactly when its version is right and every lump is a whole number of records that fits its table and lies in the file. */
  lemma LoadBSPFileOutcome(host: Endian, file: seq<byte>, setsCount: bool)
    requires |file| >= HEADER_SIZE
    ensures LoadBSPFileWith(host, file, setsCount).Done? <==>
      ReadHeader(file).version == BSPVERSION &&
      forall k: LumpKind :: LumpLoads(file, LumpOf(ReadHeader(file), k), k)
  {
    forall k: LumpKind
      ensures CopyFromFile(host, file, k).Done? <==> LumpLoads(file, LumpOf(ReadHeader(file), k), k)
    {
      CopyFromFileDone(host, file, k);
    }
  }

  /**
   * As written, a loaded file has no records in any table: nothing is swapped,
   * the data keeps the order it has in the buffer (the disk order, past the
   * header) and every checksum is 0.
   */
  lemma LoadBSPFileAsWrittenLeavesCountsZero(host: Endian, file: seq<byte>, k: LumpKind)
    ensures LoadBSPFileAsWritten(host, file).Done? ==>
      var f := LoadBSPFileAsWritten(host, file).value;
      var l := LumpOf(ReadHeader(file), k);
      k in f && f[k].count == 0 && f[k].checksum == 0 &&
      f[k].data == LumpBytes(InPlaceHeader(host, file), l) &&
      (l.fileofs >= HEADER_SIZE || host == LittleEndian ==> f[k].data == LumpBytes(file, l))
  {
    if LoadBSPFileAsWritten(host, file).Done? {
      var f := LoadBSPFileAsWritten(host, file).value;
      assert f == Finished(host, file, false);
      assert f[k] == FinishedTable(host, file, k, false);
      var t := Copied(host, file, k, false);
      EmptyTableUnchanged(host, k, t);
    }
  }

  /** A table with no records is neither swapped nor checksummed. */
  lemma EmptyTableUnchanged(host: Endian, k: LumpKind, t: Table)
    requires t.count == 0
    ensures SwapTable(false, host, k, t) == t
    ensures TableChecksum(k, t) == 0
  {
    assert Pad(t.data, 0)[..0] == [];
  }

  /**
   * With counts recorded, each table holds `filelen / sizeof` records, and
   * swapping it back to disk order gives the lump's bytes in the buffer: the
   * bytes in the file for a lump past the header or on a little-endian host.
   */
  lemma LoadBSPFileRecordsLumps(host: Endian, file: seq<byte>, k: LumpKind)
    ensures LoadBSPFile(host, file).Done? ==>
      var f := LoadBSPFile(host, file).value;
      var l := LumpOf(ReadHeader(file), k);
      k in f && f[k].count * RecordSize(k) == l.filelen &&
      (k != Textures || l.filelen == 0 || l.filelen >= 4 ==>
        && SwapTable(true, host, k, f[k]).data == LumpBytes(InPlaceHeader(host, file), l)
        && (l.fileofs >= HEADER_SIZE || host == LittleEndian ==>
              SwapTable(true, host, k, f[k]).data == LumpBytes(file, l)))
  {
    if LoadBSPFile(host, file).Done? {
      var l := LumpOf(ReadHeader(file), k);
      var raw := Copied(host, file, k, true);
      var swapped := SwapTable(false, host, k, raw);
      var f := LoadBSPFile(host, file).value;
      assert f[k].data == swapped.data && f[k].count == swapped.count;
      assert SwapTable(true, host, k, f[k]).data == SwapTable(true, host, k, swapped).data;
      if k != Textures || l.filelen == 0 || l.filelen >= 4 {
        SwapTableRoundTrip(host, k, raw, true);
      }
    }
  }

  /** Each loaded table but the mark-surface one carries the checksum of its records in host order. */
  lemma LoadBSPFileChecksums(host: Endian, file: seq<byte>, k: LumpKind)
    ensures LoadBSPFile(host, file).Done? ==>
      var f := LoadBSPFile(host, file).value;
      var l := LumpOf(ReadHeader(file), k);
      k in f &&
      (k == Marksurfaces ==> f[k].checksum == 0) &&
      (k != Marksurfaces && |f[k].data| >= l.filelen ==>
        f[k].checksum == Signed32(ChecksumOf(f[k].data[..l.filelen])))
  {
    if LoadBSPFile(host, file).Done? {
      var f := LoadBSPFile(host, file).value;
      var raw := Copied(host, file, k, true);
      assert f[k] == FinishTable(host, k, raw);
      FinishTableChecksum(host, k, raw);
    }
  }

  /** A finished table carries the checksum of its first `count` records' bytes, unless it is the mark-surface one. */
  lemma FinishTableChecksum(host: Endian, k: LumpKind, c: Table)
    requires c.count >= 0 && c.checksum == 0
    ensures var t := FinishTable(host, k, c); var n := c.count * RecordSize(k);
      (k == Marksurfaces ==> t.checksum == 0)
      && (k != Marksurfaces && |t.data| >= n ==> t.checksum == Signed32(ChecksumOf(t.data[..n])))
  {
    var t := SwapTable(false, host, k, c);
    var n := t.count * RecordSize(k);
    if k != Marksurfaces && |t.data| >= n {
      assert Pad(t.data, n) == t.data;
    }
  }
}
