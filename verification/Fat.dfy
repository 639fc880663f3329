/** The FAT12 reader of the second boot stage (source/boot/stage2/fat.c). A disk read
    is a total function from block address to sector and always succeeds. */
module Fat {
  import opened Bits

  const SECTOR_SIZE: nat := 512
  const MAX_FILE_HANDLES: nat := 10
  const ROOT_DIRECTORY_HANDLE: int := -1
  const END_OF_CHAIN: nat := 0xFF8

  type byte = x: int | 0 <= x < 256
  type entry12 = x: int | 0 <= x < 4096

  // ----- the 12-bit allocation table

  /** The 16-bit little-endian load of the source. */
  function Word16(fat: seq<byte>, i: nat): nat
    requires i + 1 < |fat|
  {
    fat[i] as int + 0x100 * (fat[i + 1] as int)
  }

  predicate InTable(fat: seq<byte>, cluster: nat) {
    cluster * 3 / 2 + 1 < |fat|
  }

  /** FAT_NextCluster */
  function NextCluster(fat: seq<byte>, cluster: nat): (r: nat)
    requires InTable(fat, cluster)
    ensures r < 4096
  {
    var w := Word16(fat, cluster * 3 / 2);
    if cluster % 2 == 0 then w % 4096 else w / 16
  }

  /** Two entries to three bytes; the layout of FAT12. */
  function Pack(es: seq<entry12>): (r: seq<byte>)
    ensures |r| == (3 * |es| + 1) / 2
  {
    if |es| == 0 then []
    else if |es| == 1 then [es[0] % 0x100, es[0] / 0x100]
    else [es[0] % 0x100, es[0] / 0x100 + es[1] % 16 * 16, es[1] / 16] + Pack(es[2..])
  }

  /** The entries 0x123 and 0x456. */
  lemma PackedPair()
    ensures Pack([0x123, 0x456]) == [0x23, 0x61, 0x45]
  {
    assert [0x123, 0x456][2..] == [];
  }

  /** Reading entry c back from the packed table. */
  lemma {:induction false} NextClusterInvertsPack(es: seq<entry12>, c: nat)
    requires c < |es|
    ensures InTable(Pack(es), c) && NextCluster(Pack(es), c) == es[c]
  {
    PackHead(es);
    if c == 0 {
      FirstOfPair(Pack(es), c, es[c], if |es| > 1 then es[1] % 16 else 0);
    } else if c == 1 {
      SecondOfPair(Pack(es), c, es[c], es[0] / 0x100);
    } else {
      NextClusterInvertsPack(es[2..], c - 2);
      LaterPair(Pack(es), Pack(es[2..]), c);
    }
  }

  lemma FirstOfPair(fat: seq<byte>, c: nat, e: nat, high: nat)
    requires c == 0 && |fat| > 1 && fat[0] as int == e % 0x100 && fat[1] as int == e / 0x100 + high * 16 && e < 4096
    ensures InTable(fat, c) && NextCluster(fat, c) == e
  {
    assert Word16(fat, 0) == e + high * 4096;
  }

  lemma SecondOfPair(fat: seq<byte>, c: nat, e: nat, low: nat)
    requires c == 1 && |fat| > 2 && fat[1] as int == low + e % 16 * 16 && fat[2] as int == e / 16 && low < 16
    ensures InTable(fat, c) && NextCluster(fat, c) == e
  {
    assert Word16(fat, 1) == low + 16 * e;
  }

  lemma LaterPair(fat: seq<byte>, rest: seq<byte>, c: nat)
    requires |fat| >= 3 && rest == fat[3..] && c >= 2 && InTable(rest, c - 2)
    ensures InTable(fat, c) && NextCluster(fat, c) == NextCluster(rest, c - 2)
  {
    var i: nat := (c - 2) * 3 / 2;
    assert c * 3 / 2 == i + 3;
    assert fat[i + 3] == rest[i] && fat[i + 4] == rest[i + 1];
    assert Word16(fat, i + 3) == Word16(rest, i);
  }

  lemma PackHead(es: seq<entry12>)
    requires |es| > 0
    ensures |Pack(es)| > 1 && Pack(es)[0] == es[0] % 0x100
    ensures Pack(es)[1] as int == es[0] / 0x100 + (if |es| > 1 then es[1] % 16 else 0) * 16
    ensures |es| > 1 ==> |Pack(es)| > 2 && Pack(es)[2] == es[1] / 16 && Pack(es)[3..] == Pack(es[2..])
  {
  }

  // ----- volumes and the bytes of a file

  type Sector = s: seq<byte> | |s| == SECTOR_SIZE witness seq(SECTOR_SIZE, _ => 0)

  datatype Volume = Volume(disk: nat -> Sector, fat: seq<byte>, dataLba: nat, sectorsPerCluster: nat) {
    predicate Sound() {
      0 < sectorsPerCluster < 256 && dataLba + 4096 * 256 < 0x1_0000_0000
    }

    /** FAT_ClusterToLba, on clusters that have data. */
    function ClusterToLba(cluster: nat): nat
      requires cluster >= 2
    {
      dataLba + (cluster - 2) * sectorsPerCluster
    }

    /** A chain of data clusters linked through the table and closed by an end mark. */
    ghost predicate Chain(cs: seq<nat>) {
      && |cs| > 0
      && (forall i :: 0 <= i < |cs| ==> 2 <= cs[i] < END_OF_CHAIN && InTable(fat, cs[i]))
      && (forall i :: 0 <= i < |cs| - 1 ==> NextCluster(fat, cs[i]) == cs[i + 1])
      && NextCluster(fat, cs[|cs| - 1]) >= END_OF_CHAIN
    }
  }

  /** Where a file's sectors are: a run of blocks for the root directory, otherwise
      the clusters of a chain. */
  datatype Layout = Run(first: nat, count: nat) | Clusters(cs: seq<nat>) {
    function Count(v: Volume): nat {
      match this
      case Run(_, count) => count
      case Clusters(cs) => |cs| * v.sectorsPerCluster
    }

    ghost predicate Sound(v: Volume) {
      v.Sound() && (Clusters? ==> v.Chain(cs))
    }

    lemma SectorIndex(v: Volume, q: nat)
      requires Sound(v) && Clusters? && q < Count(v)
      ensures 0 <= q / v.sectorsPerCluster < |cs|
    {
      DivBound(q, v.sectorsPerCluster);
      MulLt(q / v.sectorsPerCluster, |cs|, v.sectorsPerCluster);
    }

    ghost function Lba(v: Volume, q: nat): nat
      requires Sound(v) && q < Count(v)
    {
      match this
      case Run(first, _) => first + q
      case Clusters(cs) => SectorIndex(v, q); v.ClusterToLba(cs[q / v.sectorsPerCluster]) + q % v.sectorsPerCluster
    }

    /** Byte a of the file's sectors laid end to end. */
    ghost function ByteAt(v: Volume, a: nat): byte
      requires Sound(v) && a < Count(v) * SECTOR_SIZE
    {
      v.disk(Lba(v, a / SECTOR_SIZE))[a % SECTOR_SIZE]
    }

    ghost function Bytes(v: Volume): (r: seq<byte>)
      requires Sound(v)
      ensures |r| == Count(v) * SECTOR_SIZE
    {
      seq(Count(v) * SECTOR_SIZE, a requires 0 <= a < Count(v) * SECTOR_SIZE => ByteAt(v, a))
    }
  }

  function Min(a: int, b: int): int { if a < b then a else b }

  // ----- what is on the disk

  /** From block dataLba on the disk holds the given clusters one after the other; the first
      one has number 2. */
  ghost predicate Holds(v: Volume, data: seq<seq<byte>>) {
    && (forall k :: 0 <= k < |data| ==> |data[k]| == v.sectorsPerCluster * SECTOR_SIZE)
    && forall k, r :: 0 <= k < |data| && 0 <= r < v.sectorsPerCluster ==>
         SectorOf(v, k * v.sectorsPerCluster + r) == Part(data[k], r)
  }

  function SectorOf(v: Volume, k: nat): Sector {
    v.disk(v.dataLba + k)
  }

  /** Sector r of a cluster. */
  function Part(cluster: seq<byte>, r: nat): seq<byte> {
    if (r + 1) * SECTOR_SIZE <= |cluster| then cluster[r * SECTOR_SIZE..(r + 1) * SECTOR_SIZE] else []
  }

  /** The clusters of a chain laid end to end. */
  function Joined(data: seq<seq<byte>>, cs: seq<nat>): seq<byte>
    requires forall i :: 0 <= i < |cs| ==> 2 <= cs[i] < |data| + 2
  {
    if cs == [] then [] else data[cs[0] - 2] + Joined(data, cs[1..])
  }

  /** Block dataLba + k is a sector of one data cluster and of no other. */
  lemma BlockOf(v: Volume, k: nat, c: nat, r: nat)
    requires v.sectorsPerCluster > 0 && c >= 2 && r < v.sectorsPerCluster
    ensures v.ClusterToLba(c) + r == v.dataLba + k <==>
            c == 2 + k / v.sectorsPerCluster && r == k % v.sectorsPerCluster
  {
    if (c - 2) * v.sectorsPerCluster + r == k {
      DivModUnique(k, v.sectorsPerCluster, c - 2, r);
    }
  }

  lemma {:induction false} JoinedAt(data: seq<seq<byte>>, cs: seq<nat>, size: nat, i: nat, o: nat)
    requires forall i :: 0 <= i < |cs| ==> 2 <= cs[i] < |data| + 2
    requires forall k :: 0 <= k < |data| ==> |data[k]| == size
    requires i < |cs| && o < size
    ensures |Joined(data, cs)| == |cs| * size && i * size + o < |cs| * size
    ensures Joined(data, cs)[i * size + o] == data[cs[i] - 2][o]
    decreases cs
  {
    JoinedLength(data, cs, size);
    MulMono(i + 1, |cs|, size);
    Distribute(i, 1, size);
    if i > 0 {
      JoinedAt(data, cs[1..], size, i - 1, o);
      Distribute(i - 1, 1, size);
    }
  }

  lemma {:induction false} JoinedLength(data: seq<seq<byte>>, cs: seq<nat>, size: nat)
    requires forall i :: 0 <= i < |cs| ==> 2 <= cs[i] < |data| + 2
    requires forall k :: 0 <= k < |data| ==> |data[k]| == size
    ensures |Joined(data, cs)| == |cs| * size
    decreases cs
  {
    if cs != [] {
      JoinedLength(data, cs[1..], size);
      Distribute(|cs| - 1, 1, size);
    }
  }

  /** The bytes of a file are those of its clusters. */
  lemma BytesAreClusters(v: Volume, cs: seq<nat>, data: seq<seq<byte>>)
    requires Clusters(cs).Sound(v) && Holds(v, data) && forall i :: 0 <= i < |cs| ==> cs[i] < |data| + 2
    ensures Clusters(cs).Bytes(v) == Joined(data, cs)
  {
    var spc, bytes, joined := v.sectorsPerCluster, Clusters(cs).Bytes(v), Joined(data, cs);
    JoinedLength(data, cs, spc * SECTOR_SIZE);
    MulAssoc(|cs|, spc, SECTOR_SIZE);
    forall a | 0 <= a < |bytes| ensures bytes[a] == joined[a] {
      ByteInCluster(v, cs, data, a);
    }
  }

  lemma ByteInCluster(v: Volume, cs: seq<nat>, data: seq<seq<byte>>, a: nat)
    requires Clusters(cs).Sound(v) && Holds(v, data) && forall i :: 0 <= i < |cs| ==> cs[i] < |data| + 2
    requires a < |cs| * v.sectorsPerCluster * SECTOR_SIZE
    ensures a < |Joined(data, cs)| && Clusters(cs).ByteAt(v, a) == Joined(data, cs)[a]
  {
    var spc: int, q, b := v.sectorsPerCluster, a / SECTOR_SIZE, a % SECTOR_SIZE;
    Clusters(cs).SectorIndex(v, q);
    var i, r := q / spc, q % spc;
    DivBound(q, spc);
    ByteOfSector(v, data, cs[i], r, b);
    ByteAtIs(v, cs, a, q, i, r, b);
    ByteOfFile(data, cs, spc, a, q, i, r, b);
  }

  lemma ByteAtIs(v: Volume, cs: seq<nat>, a: nat, q: nat, i: nat, r: nat, b: nat)
    requires Clusters(cs).Sound(v) && a < |cs| * v.sectorsPerCluster * SECTOR_SIZE
    requires q == a / SECTOR_SIZE && b == a % SECTOR_SIZE
    requires i == q / v.sectorsPerCluster < |cs| && r == q % v.sectorsPerCluster
    ensures Clusters(cs).ByteAt(v, a) == v.disk(v.ClusterToLba(cs[i]) + r)[b]
  {
  }

  lemma ByteOfFile(data: seq<seq<byte>>, cs: seq<nat>, spc: nat, a: nat, q: nat, i: nat, r: nat, b: nat)
    requires (forall i :: 0 <= i < |cs| ==> 2 <= cs[i] < |data| + 2)
    requires forall k :: 0 <= k < |data| ==> |data[k]| == spc * SECTOR_SIZE
    requires a == q * SECTOR_SIZE + b && q == i * spc + r && i < |cs|
    requires r * SECTOR_SIZE + b < spc * SECTOR_SIZE
    ensures a < |Joined(data, cs)| && Joined(data, cs)[a] == data[cs[i] - 2][r * SECTOR_SIZE + b]
  {
    ByteIndex(a, q, i, spc, r, b);
    JoinedAt(data, cs, spc * SECTOR_SIZE, i, r * SECTOR_SIZE + b);
  }

  lemma ByteOfSector(v: Volume, data: seq<seq<byte>>, c: nat, r: nat, b: nat)
    requires Holds(v, data) && 2 <= c < |data| + 2 && r < v.sectorsPerCluster && b < SECTOR_SIZE
    ensures r * SECTOR_SIZE + b < |data[c - 2]| == v.sectorsPerCluster * SECTOR_SIZE
    ensures v.disk(v.ClusterToLba(c) + r)[b] == data[c - 2][r * SECTOR_SIZE + b]
  {
    var k := c - 2;
    assert v.ClusterToLba(c) + r == v.dataLba + (k * v.sectorsPerCluster + r);
    assert SectorOf(v, k * v.sectorsPerCluster + r) == Part(data[k], r);
    InPart(data[k], v.sectorsPerCluster, r, b);
  }

  lemma ByteIndex(a: nat, q: nat, i: nat, spc: nat, r: nat, b: nat)
    requires a == q * SECTOR_SIZE + b && q == i * spc + r
    ensures a == i * (spc * SECTOR_SIZE) + (r * SECTOR_SIZE + b)
  {
    MulAssoc(i, spc, SECTOR_SIZE);
    Distribute(i * spc, r, SECTOR_SIZE);
  }

  lemma InPart(cluster: seq<byte>, spc: nat, r: nat, b: nat)
    requires |cluster| == spc * SECTOR_SIZE && r < spc && b < SECTOR_SIZE
    ensures r * SECTOR_SIZE + b < spc * SECTOR_SIZE && |Part(cluster, r)| == SECTOR_SIZE
    ensures Part(cluster, r)[b] == cluster[r * SECTOR_SIZE + b]
  {
  }

  // ----- open files

  class FileData {
    const buffer: array<byte>
    var handle: int
    var isDirectory: bool
    var position: nat
    var size: nat
    var isOpen: bool
    var firstCluster: nat
    var currentCluster: nat
    var currentSectorInCluster: nat
    ghost var layout: Layout

    constructor ()
      ensures !isOpen && fresh(buffer)
    {
      buffer, isOpen := new byte[SECTOR_SIZE](_ => 0), false;
      handle, isDirectory, position, size := 0, false, 0, 0;
      firstCluster, currentCluster, currentSectorInCluster, layout := 0, 0, 0, Run(0, 0);
    }

    /** currentCluster and currentSectorInCluster name sector q of the file. */
    ghost predicate At(v: Volume, q: nat)
      reads this
      requires layout.Sound(v) && q < layout.Count(v)
    {
      match layout
      case Run(first, _) => currentCluster == first + q
      case Clusters(cs) =>
        layout.SectorIndex(v, q);
        currentCluster == cs[q / v.sectorsPerCluster] && currentSectorInCluster == q % v.sectorsPerCluster
    }

    /** How many bytes the file has: its size or the end of its sectors, whichever
        comes first. A directory of size 0 goes on to the end of its chain. */
    ghost function End(v: Volume): nat
      reads this
    {
      if isDirectory && size == 0 then layout.Count(v) * SECTOR_SIZE
      else Min(size, layout.Count(v) * SECTOR_SIZE)
    }

    ghost predicate Valid(v: Volume)
      reads this, buffer
    {
      && layout.Sound(v) && buffer.Length == SECTOR_SIZE
      && (handle == ROOT_DIRECTORY_HANDLE <==> layout.Run?)
      && (layout.Run? ==> 0 < size <= layout.count * SECTOR_SIZE)
      && position <= End(v)
      && var n := layout.Count(v) * SECTOR_SIZE;
         && (position == n ==> size == n)
         && (position < n ==>
               At(v, position / SECTOR_SIZE) && buffer[..] == v.disk(layout.Lba(v, position / SECTOR_SIZE)))
    }

    /** The set-up of a free handle by FAT_OpenEntry. */
    method StartAt(v: Volume, handle: nat, entry: DirectoryEntry, ghost cs: seq<nat>)
      requires v.Sound() && v.Chain(cs) && buffer.Length == SECTOR_SIZE
      requires cs[0] == entry.firstClusterLow + entry.firstClusterHigh * 0x1_0000
      modifies this, buffer
      ensures isOpen && Valid(v) && layout == Clusters(cs) && position == 0 && this.handle == handle
      ensures isDirectory == entry.directory && size == entry.size
    {
      this.handle, isDirectory, position, size := handle, entry.directory, 0, entry.size;
      firstCluster := entry.firstClusterLow + entry.firstClusterHigh * 0x1_0000;
      currentCluster, currentSectorInCluster := firstCluster, 0;
      layout := Clusters(cs);
      DivModUnique(0, v.sectorsPerCluster, 0, 0);
      MulMono(1, |cs|, v.sectorsPerCluster);
      LoadSector(v, v.ClusterToLba(currentCluster));
      isOpen := true;
    }

    /** DISK_ReadSectors of one sector into the buffer. */
    method LoadSector(v: Volume, lba: nat)
      requires buffer.Length == SECTOR_SIZE
      modifies buffer
      ensures buffer[..] == v.disk(lba)
    {
      var s := v.disk(lba);
      for i := 0 to SECTOR_SIZE
        invariant buffer[..i] == s[..i]
      {
        buffer[i] := s[i];
      }
    }

    /** memcpy from the sector buffer to the caller's. */
    method CopyOut(dataOut: array<byte>, out: nat, offset: nat, take: nat)
      requires dataOut != buffer && out + take <= dataOut.Length && offset + take <= buffer.Length
      modifies dataOut
      ensures Overwritten(old(dataOut[..]), dataOut[..], out, buffer[..][offset..offset + take])
    {
      ghost var before, s := dataOut[..], buffer[..];
      for i := 0 to take
        invariant Overwritten(before, dataOut[..], out, s[offset..offset + i])
      {
        ghost var mid := dataOut[..];
        dataOut[out + i] := buffer[offset + i];
        OverwrittenNext(before, mid, dataOut[..], out, s, offset, i);
      }
    }

    /** Moving on by take bytes, and to the next sector when this one is used up.
        Returns false when the end of the chain stops the reading loop. */
    method MoveOn(v: Volume, take: nat, leftInBuffer: nat) returns (more: bool)
      requires Valid(v) && position < End(v)
      requires leftInBuffer == SECTOR_SIZE - position % SECTOR_SIZE
      requires 0 < take <= leftInBuffer && position + take <= End(v)
      modifies this`position, this`size, this`currentCluster, this`currentSectorInCluster, buffer
      ensures Valid(v) && End(v) == old(End(v)) && position == old(position) + take
      ensures !more ==> position == End(v)
      ensures more ==> size == old(size)
    {
      ghost var q := position / SECTOR_SIZE;
      InSector(position, take);
      position := position + take;
      more := true;
      if leftInBuffer == take {
        more := Cross(v, q);
      }
    }

    /** Having read the whole of sector q. */
    method Cross(v: Volume, ghost q: nat) returns (more: bool)
      requires layout.Sound(v) && buffer.Length == SECTOR_SIZE && q < layout.Count(v) && At(v, q)
      requires (handle == ROOT_DIRECTORY_HANDLE <==> layout.Run?)
      requires layout.Run? ==> 0 < size <= layout.count * SECTOR_SIZE
      requires position == (q + 1) * SECTOR_SIZE <= End(v)
      modifies this`size, this`currentCluster, this`currentSectorInCluster, buffer
      ensures Valid(v) && End(v) == old(End(v))
      ensures !more ==> position == End(v)
      ensures more ==> size == old(size)
    {
      more := NextSector(v, q);
      assert position / SECTOR_SIZE == q + 1;
    }

    /** One turn of the loop of FAT_Read, the bytes from start on being delivered to
        the front of a buffer that held out0. r' is how many there are then. */
    method ReadSome(v: Volume, byteCount: nat, dataOut: array<byte>, r: nat,
                    ghost start: nat, ghost out0: seq<byte>, ghost bytes: seq<byte>)
      returns (r': nat, more: bool)
      requires Valid(v) && dataOut != buffer && bytes == layout.Bytes(v) && position == start + r
      requires byteCount > 0 && r + byteCount <= dataOut.Length
      requires (isDirectory && size == 0) || position + byteCount <= size
      requires Delivered(bytes, start, r, out0, dataOut[..])
      modifies this`position, this`size, this`currentCluster, this`currentSectorInCluster, buffer, dataOut
      ensures Valid(v) && End(v) == old(End(v)) && position == start + r' && r < r' <= r + byteCount
      ensures !more ==> position == End(v)
      ensures more ==> size == old(size)
      ensures Delivered(bytes, start, r', out0, dataOut[..])
    {
      var leftInBuffer := SECTOR_SIZE - position % SECTOR_SIZE;
      var take := Min(byteCount, leftInBuffer);
      r' := r + take;
      SectorRoom(position, take, layout.Count(v));
      Deliver(v, take, dataOut, r, r', start, out0, bytes);
      more := MoveOn(v, take, leftInBuffer);
    }

    /** The memcpy of FAT_Read: the next take bytes of the file, all in the buffer. */
    method Deliver(v: Volume, take: nat, dataOut: array<byte>, r: nat, ghost r': nat,
                   ghost start: nat, ghost out0: seq<byte>, ghost bytes: seq<byte>)
      requires Valid(v) && dataOut != buffer && bytes == layout.Bytes(v) && position == start + r < End(v)
      requires position % SECTOR_SIZE + take <= SECTOR_SIZE && r' == r + take <= dataOut.Length
      requires Delivered(bytes, start, r, out0, dataOut[..])
      modifies dataOut
      ensures Delivered(bytes, start, r', out0, dataOut[..])
    {
      SectorSlice(v, layout, position, take);
      var o := position % SECTOR_SIZE;
      ghost var before, part := dataOut[..], buffer[..][o..o + take];
      CopyOut(dataOut, r, o, take);
      NextPart(bytes, start, r, r', position, part, out0, before, dataOut[..]);
    }

    /** The loop of FAT_Read: up to wanted bytes, fewer at the end of the chain. */
    method ReadLoop(v: Volume, wanted: nat, dataOut: array<byte>,
                    ghost start: nat, ghost out0: seq<byte>, ghost bytes: seq<byte>) returns (r: nat)
      requires Valid(v) && wanted <= dataOut.Length && dataOut != buffer && bytes == layout.Bytes(v)
      requires start == position && out0 == dataOut[..]
      requires (isDirectory && size == 0) || position + wanted <= size
      modifies this`position, this`size, this`currentCluster, this`currentSectorInCluster, buffer, dataOut
      ensures Valid(v) && End(v) == old(End(v))
      ensures r == Min(wanted, End(v) - start) && position == start + r
      ensures Delivered(bytes, start, r, out0, dataOut[..])
    {
      var byteCount := wanted;
      ghost var end := End(v);
      r := 0;
      while byteCount > 0
        invariant Valid(v) && position <= End(v) == end && 0 <= byteCount
        invariant r + byteCount == wanted && position == start + r
        invariant (isDirectory && size == 0) || start + wanted <= size
        invariant Delivered(bytes, start, r, out0, dataOut[..])
      {
        var r', more := ReadSome(v, byteCount, dataOut, r, start, out0, bytes);
        r, byteCount := r', byteCount - (r' - r);
        if !more {
          break;
        }
      }
      assert position <= end && (r == wanted || position == end);
    }

    /** FAT_Read */
    method Read(v: Volume, byteCount0: nat, dataOut: array<byte>) returns (r: nat)
      requires Valid(v) && byteCount0 <= dataOut.Length && dataOut != buffer
      modifies this`position, this`size, this`currentCluster, this`currentSectorInCluster, buffer, dataOut
      ensures Valid(v) && End(v) == old(End(v))
      ensures r == Min(byteCount0, End(v) - old(position)) && position == old(position) + r
      ensures Delivered(layout.Bytes(v), old(position), r, old(dataOut[..]), dataOut[..])
    {
      var byteCount := byteCount0;
      if !isDirectory || (isDirectory && size != 0) {
        byteCount := Min(byteCount, size - position);
      }
      r := ReadLoop(v, byteCount, dataOut, position, dataOut[..], layout.Bytes(v));
    }

    /** Crossing into sector q + 1, having read the whole of sector q. Returns false at
        the end of the chain. */
    method NextSector(v: Volume, ghost q: nat) returns (more: bool)
      requires layout.Sound(v) && buffer.Length == SECTOR_SIZE && q < layout.Count(v) && At(v, q)
      requires handle == ROOT_DIRECTORY_HANDLE <==> layout.Run?
      requires position == (q + 1) * SECTOR_SIZE
      modifies this`currentCluster, this`currentSectorInCluster, this`size, buffer
      ensures layout.Clusters? ==> (more <==> q + 1 < layout.Count(v))
      ensures q + 1 < layout.Count(v) ==>
                size == old(size) && At(v, q + 1) && buffer[..] == v.disk(layout.Lba(v, q + 1))
      ensures q + 1 == layout.Count(v) && layout.Clusters? ==> size == position
      ensures layout.Run? ==> more && size == old(size)
    {
      if handle == ROOT_DIRECTORY_HANDLE {
        currentCluster := currentCluster + 1;
        LoadSector(v, currentCluster);
        return true;
      }
      ClusterStep(v, layout, q);
      currentSectorInCluster := currentSectorInCluster + 1;
      if currentSectorInCluster >= v.sectorsPerCluster {
        currentSectorInCluster := 0;
        currentCluster := NextCluster(v.fat, currentCluster);
      }
      if currentCluster >= END_OF_CHAIN {
        size := position;
        return false;
      }
      LoadSector(v, v.ClusterToLba(currentCluster) + currentSectorInCluster);
      more := true;
    }
  }

  /** part has been written over before, from position at on. */
  ghost predicate Overwritten(before: seq<byte>, now: seq<byte>, at: nat, part: seq<byte>) {
    at + |part| <= |before| && now == before[..at] + part + before[at + |part|..]
  }

  lemma OverwrittenNext(before: seq<byte>, now: seq<byte>, now': seq<byte>, at: nat, s: seq<byte>, o: nat, i: nat)
    requires o + i < |s| && at + i < |before| && Overwritten(before, now, at, s[o..o + i])
    requires now' == now[at + i := s[o + i]]
    ensures Overwritten(before, now', at, s[o..o + (i + 1)])
  {
    assert s[o..o + (i + 1)] == s[o..o + i] + [s[o + i]];
  }

  /** r bytes of the file from start on have been delivered at the front of out. */
  ghost predicate Delivered(bytes: seq<byte>, start: nat, r: nat, out0: seq<byte>, out: seq<byte>) {
    start + r <= |bytes| && r <= |out0| && out == bytes[start..start + r] + out0[r..]
  }

  /** The bytes of the file from at on, written behind the first r of out. */
  lemma NextPart(bytes: seq<byte>, start: nat, r: nat, r': nat, at: nat, part: seq<byte>,
                 out0: seq<byte>, out: seq<byte>, out': seq<byte>)
    requires Delivered(bytes, start, r, out0, out) && at == start + r && r <= r' <= |out|
    requires start + r' <= |bytes| && part == bytes[at..start + r'] && out' == out[..r] + part + out[r'..]
    ensures Delivered(bytes, start, r', out0, out')
  {
  }

  /** Within the sectors there is room up to the end of the current one. */
  lemma SectorRoom(position: nat, take: nat, count: nat)
    requires position < count * SECTOR_SIZE && take <= SECTOR_SIZE - position % SECTOR_SIZE
    ensures position + take <= count * SECTOR_SIZE
  {
  }

  lemma InSector(position: nat, take: nat)
    requires 0 < take <= SECTOR_SIZE - position % SECTOR_SIZE
    ensures take < SECTOR_SIZE - position % SECTOR_SIZE ==>
              (position + take) / SECTOR_SIZE == position / SECTOR_SIZE && (position + take) % SECTOR_SIZE != 0
    ensures take == SECTOR_SIZE - position % SECTOR_SIZE ==>
              position + take == (position / SECTOR_SIZE + 1) * SECTOR_SIZE
  {
  }

  /** A stretch of the file within one sector is a stretch of that sector. */
  lemma SectorSlice(v: Volume, l: Layout, position: nat, take: nat)
    requires l.Sound(v) && position % SECTOR_SIZE + take <= SECTOR_SIZE && position < l.Count(v) * SECTOR_SIZE
    ensures position + take <= l.Count(v) * SECTOR_SIZE
    ensures l.Bytes(v)[position..position + take]
         == v.disk(l.Lba(v, position / SECTOR_SIZE))[position % SECTOR_SIZE..position % SECTOR_SIZE + take]
  {
    var q, o := position / SECTOR_SIZE, position % SECTOR_SIZE;
    var sector, bytes := v.disk(l.Lba(v, q)), l.Bytes(v);
    var x, y := bytes[position..position + take], sector[o..o + take];
    forall k | 0 <= k < take ensures x[k] == y[k] {
      assert (position + k) / SECTOR_SIZE == q && (position + k) % SECTOR_SIZE == o + k;
      assert bytes[position + k] == l.ByteAt(v, position + k);
    }
    assert x == y;
  }

  /** Sector q + 1 is in the same cluster, or first in the next one, or past the end. */
  lemma ClusterStep(v: Volume, l: Layout, q: nat)
    requires l.Sound(v) && l.Clusters? && q < l.Count(v)
    ensures var i, r, spc := q / v.sectorsPerCluster, q % v.sectorsPerCluster, v.sectorsPerCluster;
            && 0 <= i < |l.cs|
            && (r + 1 < spc ==> q + 1 < l.Count(v) && (q + 1) / spc == i && (q + 1) % spc == r + 1)
            && (r + 1 == spc ==> (q + 1) / spc == i + 1 && (q + 1) % spc == 0)
            && (r + 1 == spc ==> (q + 1 < l.Count(v) <==> i + 1 < |l.cs|))
            && InTable(v.fat, l.cs[i])
            && (i + 1 < |l.cs| ==> NextCluster(v.fat, l.cs[i]) == l.cs[i + 1] && 2 <= l.cs[i + 1] < END_OF_CHAIN)
            && (i + 1 == |l.cs| ==> NextCluster(v.fat, l.cs[i]) >= END_OF_CHAIN)
  {
    l.SectorIndex(v, q);
    var spc: int := v.sectorsPerCluster;
    var i, r := q / spc, q % spc;
    ClusterStepAbstract(q, spc, i, r, |l.cs|);
  }

  lemma ClusterStepAbstract(q: nat, spc: int, i: int, r: int, n: nat)
    requires spc > 0 && i == q / spc && r == q % spc && q < n * spc && 0 <= i < n
    ensures r + 1 < spc ==> q + 1 < n * spc && (q + 1) / spc == i && (q + 1) % spc == r + 1
    ensures r + 1 == spc ==> (q + 1) / spc == i + 1 && (q + 1) % spc == 0
    ensures r + 1 == spc ==> (q + 1 < n * spc <==> i + 1 < n)
  {
    assert q == i * spc + r;
    MulMono(i + 1, n, spc);
    Distribute(i, 1, spc);
    if r + 1 < spc {
      DivModUnique(q + 1, spc, i, r + 1);
    } else {
      DivModUnique(q + 1, spc, i + 1, 0);
      if i + 1 < n {
        MulMono(i + 2, n, spc);
        Distribute(i + 1, 1, spc);
      }
    }
  }

  // ----- opening a directory entry

  datatype DirectoryEntry = DirectoryEntry(directory: bool, firstClusterLow: nat, firstClusterHigh: nat, size: nat)

  /** FAT_OpenEntry on the table of file handles, for an entry whose clusters form the
      chain cs. -1 stands for the null result. */
  method OpenEntry(v: Volume, files: seq<FileData>, entry: DirectoryEntry, ghost cs: seq<nat>) returns (handle: int)
    requires |files| == MAX_FILE_HANDLES && v.Sound() && v.Chain(cs)
    requires cs[0] == entry.firstClusterLow + entry.firstClusterHigh * 0x1_0000
    requires forall i :: 0 <= i < |files| ==> files[i].buffer.Length == SECTOR_SIZE
    requires forall i, j :: 0 <= i < j < |files| ==> files[i] != files[j] && files[i].buffer != files[j].buffer
    modifies files, set f | f in files :: f.buffer
    ensures handle == -1 <==> forall i :: 0 <= i < |files| ==> old(files[i].isOpen)
    ensures handle != -1 ==>
              && 0 <= handle < |files| && (forall i :: 0 <= i < handle ==> old(files[i].isOpen))
              && files[handle].isOpen && files[handle].Valid(v) && files[handle].layout == Clusters(cs)
              && files[handle].position == 0 && files[handle].handle == handle
              && files[handle].isDirectory == entry.directory && files[handle].size == entry.size
    ensures forall i :: 0 <= i < |files| && i != handle ==> unchanged(files[i]) && unchanged(files[i].buffer)
  {
    handle := -1;
    var i := 0;
    while i < MAX_FILE_HANDLES && handle < 0
      invariant 0 <= i <= MAX_FILE_HANDLES
      invariant handle == -1 || (handle == i - 1 && !files[handle].isOpen)
      invariant forall j :: 0 <= j < (if handle < 0 then i else handle) ==> files[j].isOpen
    {
      if !files[i].isOpen {
        handle := i;
      }
      i := i + 1;
    }
    if handle < 0 {
      return;
    }
    files[handle].StartAt(v, handle, entry, cs);
  }

  // ----- any sequence of reads

  function Sum(counts: seq<nat>): nat {
    if counts == [] then 0 else counts[0] + Sum(counts[1..])
  }

  /** What reads of the given sizes deliver one after the other, each as specified by
      FileData.Read, on a file whose end is at end. */
  function ReadAll(bytes: seq<byte>, end: nat, position: nat, counts: seq<nat>): seq<byte>
    requires position <= end <= |bytes|
    decreases |counts|
  {
    if counts == [] then []
    else
      var r := Min(counts[0], end - position);
      bytes[position..position + r] + ReadAll(bytes, end, position + r, counts[1..])
  }

  lemma Adjacent(bytes: seq<byte>, i: nat, j: nat, k: nat)
    requires i <= j <= k <= |bytes|
    ensures bytes[i..j] + bytes[j..k] == bytes[i..k]
  {
  }

  /** Together the reads deliver the file from the position on, cut at its end,
      however the byte counts are split. */
  lemma {:induction false} ReadsSplitAnyWay(bytes: seq<byte>, end: nat, position: nat, counts: seq<nat>)
    requires position <= end <= |bytes|
    ensures ReadAll(bytes, end, position, counts) == bytes[position..position + Min(Sum(counts), end - position)]
    decreases |counts|
  {
    if counts != [] {
      var next := position + Min(counts[0], end - position);
      var rest := ReadAll(bytes, end, next, counts[1..]);
      ReadsSplitAnyWay(bytes, end, next, counts[1..]);
      ReadAllStep(bytes, end, position, next, counts, bytes[position..next], rest);
      Adjacent(bytes, position, next, next + Min(Sum(counts[1..]), end - next));
    }
  }

  lemma EndInBytes(f: FileData, v: Volume)
    requires f.Valid(v)
    ensures f.position <= f.End(v) <= |f.layout.Bytes(v)|
  {
  }

  /** One call of FAT_Read into a buffer of its own. */
  method ReadPiece(f: FileData, v: Volume, count: nat, ghost bytes: seq<byte>, ghost end: nat, ghost start: nat)
    returns (piece: seq<byte>)
    requires f.Valid(v) && bytes == f.layout.Bytes(v) && end == f.End(v) && start == f.position
    modifies f`position, f`size, f`currentCluster, f`currentSectorInCluster, f.buffer
    ensures f.Valid(v) && f.End(v) == end && start <= end <= |bytes|
    ensures var r := Min(count, end - start); piece == bytes[start..start + r] && f.position == start + r
  {
    EndInBytes(f, v);
    var out := new byte[count];
    var r := f.Read(v, count, out);
    piece := out[..r];
  }

  /** FAT_Read called once for each count. */
  method ReadEach(f: FileData, v: Volume, counts: seq<nat>,
                  ghost bytes: seq<byte>, ghost end: nat, ghost start: nat) returns (got: seq<byte>)
    requires f.Valid(v) && bytes == f.layout.Bytes(v) && end == f.End(v) && start == f.position
    modifies f`position, f`size, f`currentCluster, f`currentSectorInCluster, f.buffer
    ensures f.Valid(v) && f.End(v) == end && start <= end <= |bytes|
    ensures got == ReadAll(bytes, end, start, counts) && f.position == start + Min(Sum(counts), end - start)
    decreases |counts|
  {
    EndInBytes(f, v);
    if counts == [] {
      return [];
    }
    var piece := ReadPiece(f, v, counts[0], bytes, end, start);
    ghost var next := f.position;
    var rest := ReadEach(f, v, counts[1..], bytes, end, next);
    got := piece + rest;
    ReadAllStep(bytes, end, start, next, counts, piece, rest);
  }

  lemma ReadAllStep(bytes: seq<byte>, end: nat, start: nat, next: nat, counts: seq<nat>,
                    piece: seq<byte>, rest: seq<byte>)
    requires start <= end <= |bytes| && counts != [] && next == start + Min(counts[0], end - start)
    requires piece == bytes[start..next] && rest == ReadAll(bytes, end, next, counts[1..])
    ensures piece + rest == ReadAll(bytes, end, start, counts)
    ensures next + Min(Sum(counts[1..]), end - next) == start + Min(Sum(counts), end - start)
  {
  }

  /** Any sequence of calls of FAT_Read on an open file: joined, the buffers hold the file
      from the position on, cut at its end. */
  method ReadInTurn(f: FileData, v: Volume, counts: seq<nat>) returns (got: seq<byte>)
    requires f.Valid(v)
    modifies f`position, f`size, f`currentCluster, f`currentSectorInCluster, f.buffer
    ensures f.Valid(v) && f.End(v) == old(f.End(v)) && old(f.position) <= f.End(v) <= |f.layout.Bytes(v)|
    ensures f.position == old(f.position) + Min(Sum(counts), f.End(v) - old(f.position))
    ensures got == f.layout.Bytes(v)[old(f.position)..f.position]
  {
    ghost var bytes, end, start := f.layout.Bytes(v), f.End(v), f.position;
    got := ReadEach(f, v, counts, bytes, end, start);
    ReadsSplitAnyWay(bytes, end, start, counts);
  }

  /** A chain told by the entries packed into the table. */
  lemma PackedChain(v: Volume, es: seq<entry12>, cs: seq<nat>)
    requires v.fat == Pack(es) && |cs| > 0
    requires forall i :: 0 <= i < |cs| ==> 2 <= cs[i] < END_OF_CHAIN && cs[i] < |es|
    requires forall i :: 0 <= i < |cs| - 1 ==> es[cs[i]] == cs[i + 1]
    requires es[cs[|cs| - 1]] >= END_OF_CHAIN
    ensures v.Chain(cs)
  {
    forall i | 0 <= i < |cs| ensures InTable(v.fat, cs[i]) && NextCluster(v.fat, cs[i]) == es[cs[i]] {
      NextClusterInvertsPack(es, cs[i]);
    }
  }

  /** Where a file that was just opened ends: a directory of size 0 at the end of its chain. */
  function FileEnd(entry: DirectoryEntry, sectors: nat): nat {
    if entry.directory && entry.size == 0 then sectors else Min(entry.size, sectors)
  }

  /** Opening an entry and reading in any pieces, on a disk that holds the given clusters:
      joined, the buffers hold the clusters of the chain from the start on, cut at the end. */
  method ReadFromStart(v: Volume, files: seq<FileData>, entry: DirectoryEntry, counts: seq<nat>,
                       ghost cs: seq<nat>, ghost data: seq<seq<byte>>) returns (handle: int, got: seq<byte>)
    requires |files| == MAX_FILE_HANDLES && v.Sound() && v.Chain(cs)
    requires Holds(v, data) && forall i :: 0 <= i < |cs| ==> cs[i] < |data| + 2
    requires cs[0] == entry.firstClusterLow + entry.firstClusterHigh * 0x1_0000
    requires forall i :: 0 <= i < |files| ==> files[i].buffer.Length == SECTOR_SIZE
    requires forall i, j :: 0 <= i < j < |files| ==> files[i] != files[j] && files[i].buffer != files[j].buffer
    modifies files, set f | f in files :: f.buffer
    ensures handle == -1 <==> forall i :: 0 <= i < |files| ==> old(files[i].isOpen)
    ensures handle != -1 ==>
              var all := Joined(data, cs);
              got == all[..Min(Sum(counts), FileEnd(entry, |all|))]
  {
    got := [];
    handle := OpenEntry(v, files, entry, cs);
    if handle != -1 {
      BytesAreClusters(v, cs, data);
      got := ReadInTurn(files[handle], v, counts);
    }
  }
}
