/** The sector size `main` leaves in the global `blocksize` before probing:
    the size the BLKSSZGET ioctl reports, replaced on a GPT-partitioned
    device by the size at which the GPT header was found.

    The reads behind the scan are not modelled as transactions; their
    results are inputs: `mbrType` is byte 450 of the master boot record, and
    `isHeader(size)` says whether the block read at address `size` begins
    with the GPT signature.
 */
module Sectors {
  import opened Media
  import opened Transport

  /** Smallest sector size the header scan tries (MINBLOCKSIZE). */
  const MinBlockSize: nat := 512

  /** The MBR partition type that marks GPT partitioning. */
  const GptProtective: byte := 0xEE

  /** The scan's verdict from `size` on: the first doubling at which the
      header is found, or the first doubling past MAXBLOCKSIZE. */
  function FirstHeader(isHeader: nat -> bool, size: nat): (s: nat)
    requires size > 0
    decreases 2 * MaxBlockSize - size
  {
    if size > MaxBlockSize || isHeader(size) then size else FirstHeader(isHeader, 2 * size)
  }

  /** No header at any of the sizes the scan tries. */
  predicate NoHeader(isHeader: nat -> bool) {
    !isHeader(512) && !isHeader(1024) && !isHeader(2048) && !isHeader(4096)
  }

  /** The scan loop: double from MINBLOCKSIZE until the header is found or
      the size passes MAXBLOCKSIZE. */
  method ScanGpt(isHeader: nat -> bool) returns (size: nat)
    ensures size == FirstHeader(isHeader, MinBlockSize)
    ensures size in {512, 1024, 2048, 4096, 8192}
    ensures size <= MaxBlockSize ==> isHeader(size)
    ensures forall k :: k in {512, 1024, 2048, 4096} && k < size ==> !isHeader(k)
    ensures size == 8192 <==> NoHeader(isHeader)
  {
    size := MinBlockSize;
    while size <= MaxBlockSize
      invariant size in {512, 1024, 2048, 4096, 8192}
      invariant FirstHeader(isHeader, size) == FirstHeader(isHeader, MinBlockSize)
      invariant size > 512 ==> !isHeader(512)
      invariant size > 1024 ==> !isHeader(1024)
      invariant size > 2048 ==> !isHeader(2048)
      invariant size > 4096 ==> !isHeader(4096)
      decreases 2 * MaxBlockSize - size
    {
      if isHeader(size) {
        break;
      }
      size := size * 2;
    }
  }

  /** A device with no header at any size the scan tries sends the scan past
      MAXBLOCKSIZE. */
  lemma {:induction false} NoHeaderOverflows(isHeader: nat -> bool)
    requires NoHeader(isHeader)
    ensures FirstHeader(isHeader, MinBlockSize) == 2 * MaxBlockSize
  {
    assert FirstHeader(isHeader, 4096) == 8192;
    assert FirstHeader(isHeader, 2048) == 8192;
    assert FirstHeader(isHeader, 1024) == 8192;
  }

  /** The sector size as the code leaves it: on a GPT disk the scan's last
      size, even when no header was found and the size is twice what the
      probe's buffers hold. */
  method SectorSizeAsWritten(reported: nat, mbrType: byte, isHeader: nat -> bool) returns (bs: nat)
    ensures mbrType != GptProtective ==> bs == reported
    ensures mbrType == GptProtective ==> bs == FirstHeader(isHeader, MinBlockSize)
    ensures mbrType == GptProtective && NoHeader(isHeader) ==> bs == 2 * MaxBlockSize > MaxBlockSize
  {
    bs := reported;
    if mbrType == GptProtective {
      var size := ScanGpt(isHeader);
      bs := size;
    }
  }

  /** The sector size as intended: the header's size when the scan found
      one, and the reported size otherwise.  A reported size that fits the
      probe's buffers therefore stays within them. */
  method SectorSize(reported: nat, mbrType: byte, isHeader: nat -> bool) returns (bs: nat)
    ensures mbrType == GptProtective && !NoHeader(isHeader) ==>
      bs == FirstHeader(isHeader, MinBlockSize) && isHeader(bs) && MinBlockSize <= bs <= MaxBlockSize
    ensures mbrType != GptProtective || NoHeader(isHeader) ==> bs == reported
    ensures 0 < reported <= MaxBlockSize ==> 0 < bs <= MaxBlockSize
  {
    bs := reported;
    if mbrType == GptProtective {
      var size := ScanGpt(isHeader);
      if size <= MaxBlockSize {
        bs := size;
      }
    }
  }

  /** The device the probes run on, with the sector size `main` settles on. */
  method Open(reported: nat, mbrType: byte, isHeader: nat -> bool, replies: nat -> Reply, contents: seq<byte>)
    returns (dev: Device)
    requires 0 < reported <= MaxBlockSize <= |contents|
    ensures dev.Valid() && fresh(dev) && fresh(dev.cells)
    ensures mbrType != GptProtective || NoHeader(isHeader) ==> dev.blocksize == reported
    ensures mbrType == GptProtective && !NoHeader(isHeader) ==> dev.blocksize == FirstHeader(isHeader, MinBlockSize)
    ensures dev.replies == replies && dev.cells[..] == contents && dev.transactions == 0
  {
    var bs := SectorSize(reported, mbrType, isHeader);
    dev := new Device(bs, replies, contents);
  }
}
