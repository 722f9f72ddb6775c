/** The ATA block device: `kernel/ata.c`. The drive's medium is one flat byte string; the driver
    reaches it only through whole-sector commands of at most 255 sectors. */
module Ata {
  import opened Bytes

  const SECTOR: nat := 512
  const MAX_SECTORS_PER_CMD: nat := 255

  /** How many bytes of `[offset, offset + size)` lie on a medium of `length` bytes. */
  function InDevice(length: nat, offset: nat, size: nat): (n: nat)
    ensures n <= size
    ensures n == 0 || offset + n <= length
    ensures n < size ==> offset + n >= length
  {
    if offset >= length then 0 else Min(size, length - offset)
  }

  /** The medium after `d` has been stored at `off`; nothing stored off the end changes nothing. */
  function Written(s: seq<byte>, off: nat, d: seq<byte>): (r: seq<byte>)
    requires |d| == 0 || off + |d| <= |s|
    ensures |r| == |s|
  {
    if |d| == 0 then s else Overwrite(s, off, d)
  }

  lemma WrittenStep(s: seq<byte>, off: nat, data: seq<byte>, done: nat, chunk: nat)
    requires done + chunk <= |data| && off + done + chunk <= |s|
    ensures Overwrite(Written(s, off, data[..done]), off + done, data[done..][..chunk])
         == Written(s, off, data[..done + chunk])
  {
    assert data[..done] + data[done..][..chunk] == data[..done + chunk];
    if done > 0 {
      OverwriteAppend(s, off, data[..done], data[done..][..chunk]);
    }
  }

  /** The bytes of `[a, a + n)` that lie on the medium. */
  function Clip(s: seq<byte>, a: nat, n: nat): (r: seq<byte>)
    ensures |r| == InDevice(|s|, a, n)
  {
    if a >= |s| then [] else s[a..a + InDevice(|s|, a, n)]
  }

  lemma ClipStored(s: seq<byte>, a: nat, d: seq<byte>, n: nat)
    requires |d| == InDevice(|s|, a, n)
    ensures Clip(Written(s, a, d), a, n) == d
  {
  }

  lemma ClipElsewhere(s: seq<byte>, a: nat, d: seq<byte>, b: nat, n: nat)
    requires |d| == 0 || a + |d| <= |s|
    requires a + |d| <= b || b + n <= a
    ensures Clip(Written(s, a, d), b, n) == Clip(s, b, n)
  {
  }

  lemma Gathered(image: seq<byte>, offset: nat, out: seq<byte>, piece: seq<byte>)
    requires |out| > 0 ==> offset + |out| <= |image| && out == image[offset..offset + |out|]
    requires offset + |out| + |piece| <= |image| && piece == image[offset + |out|..offset + |out| + |piece|]
    ensures out + piece == image[offset..offset + |out + piece|]
  {
  }

  class Drive {
    var image: seq<byte>

    ghost predicate Valid()
      reads this
    {
      |image| % SECTOR == 0
    }

    constructor (image: seq<byte>)
      ensures this.image == image
    {
      this.image := image;
    }

    function Sectors(): (n: nat)
      reads this
    {
      |image| / SECTOR
    }

    method ReadSectors(lba: nat, count: nat) returns (out: seq<byte>)
      requires Valid() && 1 <= count <= 255 && lba + count <= Sectors()
      ensures |out| == count * SECTOR
      ensures out == image[lba * SECTOR..(lba + count) * SECTOR]
    {
      out := [];
      for i := 0 to count
        invariant out == image[lba * SECTOR..(lba + i) * SECTOR]
      {
        out := out + image[(lba + i) * SECTOR..(lba + i + 1) * SECTOR];
      }
    }

    method WriteSectors(lba: nat, count: nat, data: seq<byte>)
      requires Valid() && 1 <= count <= 255 && lba + count <= Sectors()
      requires |data| == count * SECTOR
      modifies this
      ensures Valid()
      ensures image == Overwrite(old(image), lba * SECTOR, data)
    {
      for i := 0 to count
        invariant |image| == |old(image)|
        invariant image == Overwrite(old(image), lba * SECTOR, data[..i * SECTOR])
      {
        OverwriteAppend(old(image), lba * SECTOR, data[..i * SECTOR], data[i * SECTOR..(i + 1) * SECTOR]);
        assert data[..i * SECTOR] + data[i * SECTOR..(i + 1) * SECTOR] == data[..(i + 1) * SECTOR];
        image := Overwrite(image, (lba + i) * SECTOR, data[i * SECTOR..(i + 1) * SECTOR]);
      }
      assert data[..count * SECTOR] == data;
    }

    /** One pass of the transfer loops: a batch of whole sectors when aligned, one sector's part otherwise. */
    function Chunk(absolute: nat, left: nat): (chunk: nat)
      requires Valid() && left > 0 && absolute / SECTOR < Sectors()
      reads this
      ensures 1 <= chunk <= left && absolute + chunk <= |image|
    {
      if absolute % SECTOR == 0 && left >= SECTOR then
        Min(Min(left / SECTOR, Sectors() - absolute / SECTOR), MAX_SECTORS_PER_CMD) * SECTOR
      else
        Min(SECTOR - absolute % SECTOR, left)
    }

    method ReadPiece(absolute: nat, left: nat) returns (piece: seq<byte>)
      requires Valid() && left > 0 && absolute / SECTOR < Sectors()
      ensures piece == image[absolute..absolute + Chunk(absolute, left)]
    {
      var lba, at := absolute / SECTOR, absolute % SECTOR;
      if at == 0 && left >= SECTOR {
        assert lba * SECTOR == absolute;
        piece := ReadSectors(lba, Min(Min(left / SECTOR, Sectors() - lba), MAX_SECTORS_PER_CMD));
      } else {
        var sector := ReadSectors(lba, 1);
        piece := sector[at..at + Min(SECTOR - at, left)];
      }
    }

    method WritePiece(absolute: nat, data: seq<byte>) returns (chunk: nat)
      requires Valid() && |data| > 0 && absolute / SECTOR < Sectors()
      modifies this
      ensures chunk == old(Chunk(absolute, |data|)) && Valid()
      ensures image == Overwrite(old(image), absolute, data[..chunk])
    {
      var lba, at := absolute / SECTOR, absolute % SECTOR;
      chunk := Chunk(absolute, |data|);
      if at == 0 && |data| >= SECTOR {
        var batch := Min(Min(|data| / SECTOR, Sectors() - lba), MAX_SECTORS_PER_CMD);
        WriteSectors(lba, batch, data[..chunk]);
      } else {
        var sector := ReadSectors(lba, 1);
        ReadModifyWrite(image, lba * SECTOR, (lba + 1) * SECTOR, at, data[..chunk]);
        WriteSectors(lba, 1, Overwrite(sector, at, data[..chunk]));
      }
    }

    /** `ata_block_read`: the in-device part of the range, whatever its alignment. */
    method BlockRead(offset: nat, size: nat) returns (out: seq<byte>)
      requires Valid() && offset + size <= WORD
      ensures out == Clip(image, offset, size)
    {
      out := [];
      while |out| < size
        invariant |out| <= InDevice(|image|, offset, size)
        invariant |out| > 0 ==> out == image[offset..offset + |out|]
      {
        var absolute := offset + |out|;
        if absolute / SECTOR >= Sectors() { break; }
        var piece := ReadPiece(absolute, size - |out|);
        Gathered(image, offset, out, piece);
        out := out + piece;
      }
    }

    /** `ata_block_write`: overwrites exactly the in-device part of the range and nothing else. */
    method BlockWrite(offset: nat, data: seq<byte>) returns (done: nat)
      requires Valid() && offset + |data| <= WORD
      modifies this
      ensures Valid() && |image| == |old(image)|
      ensures done == InDevice(|image|, offset, |data|)
      ensures image == Written(old(image), offset, data[..done])
    {
      done := 0;
      while done < |data|
        invariant done <= InDevice(|image|, offset, |data|)
        invariant Valid() && |image| == |old(image)|
        invariant image == Written(old(image), offset, data[..done])
      {
        var absolute := offset + done;
        if absolute / SECTOR >= Sectors() { break; }
        var chunk := WritePiece(absolute, data[done..]);
        WrittenStep(old(image), offset, data, done, chunk);
        done := done + chunk;
      }
    }
  }
}
