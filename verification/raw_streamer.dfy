/** The raw image dump (`streamRaw`): every sector of the card, in order, with a
    sentinel block in place of each sector that cannot be read. */
module RawStreamer {
  import opened Wrappers

  type byte = b: int | 0 <= b < 0x100
  /** `size_t` on the 32-bit target. */
  type u32 = n: nat | n < 0x1_0000_0000
  type u64 = n: nat | n < 0x1_0000_0000_0000_0000

  /** Fill value for an unreadable sector (DAMAGEDSECTOR). */
  const DamagedSector: byte := 0xE5
  const SizeModulus: nat := 0x1_0000_0000
  const WideModulus: nat := 0x1_0000_0000_0000_0000
  const OctetStream := "application/octet-stream"

  /** The card as the dump sees it: the sector size and, for each sector index in
      turn, what `SD.readRAW` yields (None when the read fails). The sector count is |results|. */
  datatype Device = Device(sectorSize: u32, results: seq<Option<seq<byte>>>)

  /** Every successful read fills exactly one sector. */
  predicate WellSized(results: seq<Option<seq<byte>>>, size: nat) {
    forall i :: 0 <= i < |results| && results[i].Some? ==> |results[i].value| == size
  }

  /** The sector count fits `uint64_t` and every successful read fills the buffer. */
  predicate Valid(d: Device) {
    |d.results| < WideModulus && WellSized(d.results, d.sectorSize)
  }

  /** The sentinel block: `size` copies of DamagedSector. */
  function Filler(size: nat): (s: seq<byte>)
    ensures |s| == size
    ensures forall k :: 0 <= k < size ==> s[k] == DamagedSector
  {
    seq(size, _ => DamagedSector)
  }

  /** What is sent for one sector: the data read, or the sentinel block. */
  function Block(read: Option<seq<byte>>, size: nat): seq<byte> {
    match read
    case Some(data) => data
    case None => Filler(size)
  }

  /** The device image: the blocks of all sectors, concatenated in index order. */
  function Image(results: seq<Option<seq<byte>>>, size: nat): (image: seq<byte>)
    ensures WellSized(results, size) ==> |image| == Offset(|results|, size)
  {
    if |results| == 0 then []
    else
      var init := results[..|results| - 1];
      assert WellSized(results, size) ==> WellSized(init, size) by {
        forall i | 0 <= i < |init| ensures init[i] == results[i] { }
      }
      Image(init, size) + Block(results[|results| - 1], size)
  }

  /** Where sector i starts in the image: i sector sizes, counted one sector at a time. */
  function Offset(i: nat, size: nat): nat {
    if i == 0 then 0 else Offset(i - 1, size) + size
  }

  lemma {:induction false} OffsetIsProduct(i: nat, size: nat)
    ensures Offset(i, size) == i * size
  {
    if i > 0 {
      OffsetIsProduct(i - 1, size);
      assert (i - 1) * size + size == i * size;
    }
  }

  lemma {:induction false} OffsetMonotone(i: nat, n: nat, size: nat)
    requires i < n
    ensures Offset(i, size) + size <= Offset(n, size)
    decreases n
  {
    if i < n - 1 {
      OffsetMonotone(i, n - 1, size);
    }
  }

  /** Sector i's block sits at its offset in the image. */
  lemma {:induction false} ImageBlock(results: seq<Option<seq<byte>>>, size: nat, i: nat)
    requires WellSized(results, size) && i < |results|
    ensures Offset(i, size) + size <= |Image(results, size)|
    ensures Image(results, size)[Offset(i, size) .. Offset(i, size) + size] == Block(results[i], size)
  {
    var last := |results| - 1;
    var init := results[..last];
    var front := Image(init, size);
    var block := Block(results[last], size);
    var start := Offset(i, size);
    assert Image(results, size) == front + block;
    assert |block| == size;
    if i < last {
      ImageBlock(init, size, i);
      OffsetMonotone(i, last, size);
      assert init[i] == results[i];
      SliceInFront(front, block, start, start + size);
    } else {
      SliceInBack(front, block);
    }
  }

  lemma SliceInFront(front: seq<byte>, back: seq<byte>, lo: nat, hi: nat)
    requires lo <= hi <= |front|
    ensures (front + back)[lo..hi] == front[lo..hi]
  {
  }

  lemma SliceInBack(front: seq<byte>, back: seq<byte>)
    ensures (front + back)[|front|..|front| + |back|] == back
  {
  }

  /** Sector i's block occupies bytes [i*size, (i+1)*size) of `body`, for every sector. */
  predicate EveryBlockInPlace(results: seq<Option<seq<byte>>>, size: nat, body: seq<byte>) {
    forall i :: 0 <= i < |results| ==> BlockInPlace(results, size, body, i)
  }

  /** Sector i's block occupies bytes [i*size, (i+1)*size) of `body`. */
  predicate BlockInPlace(results: seq<Option<seq<byte>>>, size: nat, body: seq<byte>, i: nat)
    requires i < |results|
  {
    i * size + size <= |body| && body[i * size .. i * size + size] == Block(results[i], size)
  }

  lemma ImageBlocks(results: seq<Option<seq<byte>>>, size: nat)
    requires WellSized(results, size)
    ensures EveryBlockInPlace(results, size, Image(results, size))
  {
    forall i | 0 <= i < |results|
      ensures BlockInPlace(results, size, Image(results, size), i)
    {
      ImageBlock(results, size, i);
      OffsetIsProduct(i, size);
    }
  }

  /** A sector whose read failed is sent as the sentinel, byte for byte. */
  lemma FailedSectorIsSentinel(results: seq<Option<seq<byte>>>, size: nat, i: nat)
    requires WellSized(results, size) && i < |results| && results[i].None?
    ensures i * size + size <= |Image(results, size)|
    ensures forall k :: i * size <= k < i * size + size ==> Image(results, size)[k] == DamagedSector
  {
    ImageBlock(results, size, i);
    OffsetIsProduct(i, size);
    var image := Image(results, size);
    forall k | i * size <= k < i * size + size
      ensures image[k] == DamagedSector
    {
      assert image[k] == image[i * size .. i * size + size][k - i * size];
    }
  }

  /** src/main.cpp:137-152: the sector loop. The buffer starts zeroed, is overwritten by each
      successful read or by the sentinel, and is sent whole every time. `visited` records
      the sector indices read, in the order they were read. */
  method StreamSectors(d: Device) returns (body: seq<byte>, visited: seq<nat>)
    requires Valid(d)
    ensures |body| == |d.results| * d.sectorSize
    ensures body == Image(d.results, d.sectorSize)
    ensures EveryBlockInPlace(d.results, d.sectorSize, body)
    ensures |visited| == |d.results|
    ensures forall i :: 0 <= i < |visited| ==> visited[i] == i
  {
    var size := d.sectorSize;
    var buffer: seq<byte> := seq(size, _ => 0);
    body := [];
    visited := [];
    var sector := 0;
    while sector < |d.results|
      invariant sector <= |d.results|
      invariant body == Image(d.results[..sector], size)
      invariant |visited| == sector
      invariant forall i :: 0 <= i < sector ==> visited[i] == i
    {
      match d.results[sector] {
        case Some(data) =>
          buffer := data;
        case None =>
          buffer := Filler(size);
      }
      assert d.results[..sector + 1][..sector] == d.results[..sector];
      body := body + buffer;
      visited := visited + [sector];
      sector := sector + 1;
    }
    assert d.results[..sector] == d.results;
    OffsetIsProduct(|d.results|, size);
    ImageBlocks(d.results, size);
  }

  /** Line 128 as written: the 64-bit product of sector count and sector size, stored in
      a 32-bit `size_t`, so the declared length is the byte count modulo 2^32. */
  function ContentLength(sectors: u64, sectorSize: u32): (n: u32)
    ensures n == sectors * sectorSize <==> sectors * sectorSize < SizeModulus
    ensures (sectors * sectorSize - n) % SizeModulus == 0
  {
    var bytes := sectors * sectorSize;
    TruncateTwice(bytes);
    (bytes % WideModulus) % SizeModulus
  }

  /** Truncating to 64 bits and then to 32 bits is truncating to 32 bits. */
  lemma TruncateTwice(x: nat)
    ensures (x % WideModulus) % SizeModulus == x % SizeModulus
    ensures (x - x % SizeModulus) % SizeModulus == 0
  {
    var q := x / WideModulus;
    var r := x % WideModulus;
    assert x == WideModulus * q + r;
    assert WideModulus * q == SizeModulus * (SizeModulus * q);
    var k := SizeModulus * q;
    assert (SizeModulus * k + r) % SizeModulus == r % SizeModulus;
  }

  /** src/main.cpp:123-153: declare the (truncated) length, then stream every sector. */
  method StreamRaw(d: Device)
    returns (status: nat, declared: u32, contentType: string, body: seq<byte>, visited: seq<nat>)
    requires Valid(d)
    ensures status == 200 && contentType == OctetStream
    ensures body == Image(d.results, d.sectorSize)
    ensures |body| == |d.results| * d.sectorSize
    ensures declared == |body| <==> |body| < SizeModulus
    ensures (|body| - declared) % SizeModulus == 0
    ensures |visited| == |d.results| && forall i :: 0 <= i < |visited| ==> visited[i] == i
  {
    declared := ContentLength(|d.results|, d.sectorSize);
    status, contentType := 200, OctetStream;
    body, visited := StreamSectors(d);
  }

  /** A 4 GiB card (2^23 sectors of 512 bytes) whose every read fails: the dump sends
      2^32 bytes but declares a length of 0. */
  lemma FourGibibyteCardDeclaresZero()
    ensures var d := Device(512, seq(0x80_0000, _ => None));
      Valid(d)
      && |Image(d.results, 512)| == 0x1_0000_0000
      && ContentLength(|d.results|, 512) == 0
  {
    var d := Device(512, seq(0x80_0000, _ => None));
    OffsetIsProduct(0x80_0000, 512);
  }

  /** The dump with the length declared exactly, as the response contract intends. */
  method StreamRawExact(d: Device)
    returns (status: nat, declared: nat, contentType: string, body: seq<byte>, visited: seq<nat>)
    requires Valid(d)
    ensures status == 200 && contentType == OctetStream
    ensures body == Image(d.results, d.sectorSize)
    ensures declared == |body|
    ensures |visited| == |d.results| && forall i :: 0 <= i < |visited| ==> visited[i] == i
  {
    declared := |d.results| * d.sectorSize;
    status, contentType := 200, OctetStream;
    body, visited := StreamSectors(d);
  }

  /** Four sectors of 512 bytes, the third unreadable: 2048 bytes, bytes 1024-1535 the
      sentinel and the other three blocks the data read. */
  lemma FourSectorsOneDamaged(a: seq<byte>, b: seq<byte>, c: seq<byte>)
    requires |a| == 512 && |b| == 512 && |c| == 512
    ensures var image := Image([Some(a), Some(b), None, Some(c)], 512);
      |image| == 2048
      && image[0..512] == a && image[512..1024] == b
      && image[1024..1536] == Filler(512) && image[1536..2048] == c
  {
    var results := [Some(a), Some(b), None, Some(c)];
    OffsetIsProduct(4, 512);
    OffsetIsProduct(0, 512);
    OffsetIsProduct(1, 512);
    OffsetIsProduct(2, 512);
    OffsetIsProduct(3, 512);
    ImageBlock(results, 512, 0);
    ImageBlock(results, 512, 1);
    ImageBlock(results, 512, 2);
    ImageBlock(results, 512, 3);
  }
}
