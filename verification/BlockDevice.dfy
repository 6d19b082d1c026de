/** kernel/fs_block.c: the disk is one array, read and written block by block. */
module BlockDevice {
  import opened Memory
  import opened CString
  import opened Disk

  function BlockOf(d: Image, b: nat): (r: seq<byte>)
    requires b < DISK_NBLOCKS
    ensures |r| == BSIZE
  {
    d[b * BSIZE..b * BSIZE + BSIZE]
  }

  function WithBlock(d: Image, b: nat, block: seq<byte>): Image
    requires b < DISK_NBLOCKS && |block| == BSIZE
  {
    d[..b * BSIZE] + block + d[b * BSIZE + BSIZE..]
  }

  /** A block written is read back, and no other block changes. */
  lemma WithBlockReads(d: Image, b: nat, block: seq<byte>, c: nat)
    requires b < DISK_NBLOCKS && |block| == BSIZE && c < DISK_NBLOCKS
    ensures BlockOf(WithBlock(d, b, block), c) == if c == b then block else BlockOf(d, c)
  {
    var s, t := BlockOf(WithBlock(d, b, block), c), if c == b then block else BlockOf(d, c);
    assert c < b ==> c * BSIZE + BSIZE <= b * BSIZE;
    assert c > b ==> c * BSIZE >= b * BSIZE + BSIZE;
    forall j | 0 <= j < BSIZE ensures s[j] == t[j] {
      assert s[j] == WithBlock(d, b, block)[c * BSIZE + j];
    }
  }

  /** bdev_read: zero when the block is on the disk, -1 otherwise. */
  method BdevRead(disk: array<byte>, blockno: word, buf: array<byte>) returns (r: int)
    requires disk.Length == DISK_NBLOCKS * BSIZE && buf.Length == BSIZE && buf != disk
    modifies buf
    ensures r == if blockno < DISK_NBLOCKS then 0 else -1
    ensures r == 0 ==> buf[..] == BlockOf(disk[..], blockno)
  {
    if blockno >= DISK_NBLOCKS {
      return -1;
    }
    Memcpy(buf, 0, disk[blockno * BSIZE..blockno * BSIZE + BSIZE]);
    assert buf[..] == BlockOf(disk[..], blockno);
    return 0;
  }

  /** bdev_write. */
  method BdevWrite(disk: array<byte>, blockno: word, src: array<byte>) returns (r: int)
    requires disk.Length == DISK_NBLOCKS * BSIZE && src.Length == BSIZE && src != disk
    modifies disk
    ensures r == if blockno < DISK_NBLOCKS then 0 else -1
    ensures disk[..] == if blockno < DISK_NBLOCKS then WithBlock(old(disk[..]), blockno, src[..]) else old(disk[..])
  {
    if blockno >= DISK_NBLOCKS {
      return -1;
    }
    Memcpy(disk, blockno * BSIZE, src[..]);
    return 0;
  }
}
