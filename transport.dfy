/** Checked block I/O: one open, one seek to an exact offset, one whole-length
    read or write, an fsync and a close, with every deviation fatal.

    The kernel is not modelled; its answers are.  A `Device` holds the medium
    and a fixed script `replies` giving the answer to its n-th transaction:
    whether open succeeds (or the errno it fails with), where lseek lands, how
    many bytes read or write report, whether fsync and close succeed, and a
    per-byte `noise` added (modulo 256) to the bytes moved (zero for a faithful medium,
    anything else for one that stores or returns wrong data).
 */
module Transport {
  import opened Media

  /** Largest sector size the buffers are sized for (MAXBLOCKSIZE). */
  const MaxBlockSize: nat := 4096

  datatype Option<T> = None | Some(value: T)

  /** The errno values the open-failure switch tells apart. */
  datatype Errno = ENODEV | ENXIO | ENOMEDIUM | ENOENT | EPERM | EACCES | OtherErrno(code: int)

  datatype Opening = Opens | Refused(errno: Errno)

  /** lseek either lands where asked or returns some other value. */
  datatype Seeking = AsAsked | SeekReturns(landed: int)

  /** read/write either move the whole length or return some other count. */
  datatype Moving = Whole | MoveReturns(count: int)

  /** The kernel's answers to one transaction. */
  datatype Reply = Reply(opening: Opening, seeking: Seeking, moving: Moving,
                         fsyncOk: bool, closeOk: bool, noise: seq<byte>)

  /** A transaction on healthy hardware. */
  const Clean := Reply(Opens, AsAsked, Whole, true, true, [])

  /** Every reason the program stops with exit(-1). */
  datatype Fatal =
    | NoDevice                 // open: ENODEV, ENXIO, ENOMEDIUM
    | Missing                  // open: ENOENT
    | NotAllowed               // open: EPERM, EACCES
    | OpenError(errno: Errno)  // open: any other errno
    | SeekFailed               // lseek returned a negative value
    | SeekElsewhere(landed: int)
    | TransferFailed           // read/write returned a negative value
    | ShortTransfer(count: int)
    | FsyncFailed
    | CloseFailed
    | Detected(mismatch: nat, corruption: nat)  // a probe saw wrong bytes

  function OpenFault(e: Errno): Fatal {
    match e
    case ENODEV => NoDevice
    case ENXIO => NoDevice
    case ENOMEDIUM => NoDevice
    case ENOENT => Missing
    case EPERM => NotAllowed
    case EACCES => NotAllowed
    case OtherErrno(_) => OpenError(e)
  }

  /** What lseek(fd, address, SEEK_SET) returns: the requested offset, or -1
      (EINVAL) when the requested offset is negative. */
  function Landing(r: Reply, address: int): int {
    match r.seeking
    case AsAsked => if address < 0 then -1 else address
    case SeekReturns(n) => n
  }

  /** What read or write returns for a transfer of `size` bytes. */
  function Returned(r: Reply, size: nat): int {
    match r.moving
    case Whole => size
    case MoveReturns(n) => n
  }

  /** The fatal error a checked transfer stops with, in the order the checks
      are made; None when every step succeeded. */
  function Fault(r: Reply, address: int, size: nat): Option<Fatal> {
    if r.opening.Refused? then Some(OpenFault(r.opening.errno))
    else if Landing(r, address) < 0 then Some(SeekFailed)
    else if Landing(r, address) != address then Some(SeekElsewhere(Landing(r, address)))
    else if Returned(r, size) < 0 then Some(TransferFailed)
    else if Returned(r, size) != size then Some(ShortTransfer(Returned(r, size)))
    else if !r.fsyncOk then Some(FsyncFailed)
    else if !r.closeOk then Some(CloseFailed)
    else None
  }

  /** How many bytes the transfer really moved: none unless the device opened
      and the seek landed on the requested non-negative offset. */
  function Moved(r: Reply, address: int, size: nat): (c: nat)
    ensures c <= size
  {
    if r.opening.Refused? || Landing(r, address) < 0 || Landing(r, address) != address then 0
    else if Returned(r, size) < 0 then 0
    else if Returned(r, size) < size then Returned(r, size)
    else size
  }

  function Noise(r: Reply, j: int): byte {
    if 0 <= j < |r.noise| then r.noise[j] else 0
  }

  /** Byte `b` as the medium moves it at position `j` of a transfer. */
  function Garble(b: byte, r: Reply, j: int): byte {
    ((b as int + Noise(r, j) as int) % 256) as byte
  }

  /** The bytes `d` as the medium delivers or stores them under reply `r`. */
  function Noisy(d: seq<byte>, r: Reply): (e: seq<byte>)
    ensures |e| == |d|
  {
    seq(|d|, j requires 0 <= j < |d| => Garble(d[j], r, j))
  }

  /** A buffer whose first `|d|` bytes were overwritten by `d`. */
  function Fill(buf: seq<byte>, d: seq<byte>): (r: seq<byte>)
    requires |d| <= |buf|
    ensures |r| == |buf|
  {
    d + buf[|d|..]
  }

  /** A checked transfer succeeds exactly when the device opened, the seek
      landed on the requested offset, the whole length moved, and fsync and
      close both succeeded; then all `size` bytes moved.  A seek elsewhere or
      a short count is always fatal: there is no partial success. */
  lemma NoPartialSuccess(r: Reply, address: int, size: nat)
    ensures Fault(r, address, size) == None <==>
      r.opening.Opens? && address >= 0 && Landing(r, address) == address &&
      Returned(r, size) == size && r.fsyncOk && r.closeOk
    ensures Fault(r, address, size) == None ==> Moved(r, address, size) == size
    ensures Moved(r, address, size) < size ==> Fault(r, address, size).Some?
  {
  }

  /** On healthy hardware a transfer to a non-negative offset succeeds, moves
      every byte and moves it unchanged. */
  lemma CleanTransfer(address: int, size: nat, d: seq<byte>)
    requires address >= 0
    ensures Fault(Clean, address, size) == None
    ensures Moved(Clean, address, size) == size
    ensures Noisy(d, Clean) == d
  {
  }

  /** A raw block device: its medium, its sector size and the script of the
      kernel's answers. */
  class Device {
    const blocksize: nat
    const replies: nat -> Reply
    var cells: array<byte>
    var transactions: nat

    /** The sector size fits the buffers, and the medium holds at least one
        buffer's worth of cells, so one transfer never reaches the same cell
        twice. */
    ghost predicate Valid()
      reads this
    {
      0 < blocksize <= MaxBlockSize <= cells.Length
    }

    constructor (blocksize: nat, replies: nat -> Reply, contents: seq<byte>)
      requires 0 < blocksize <= MaxBlockSize <= |contents|
      ensures Valid() && fresh(cells)
      ensures this.blocksize == blocksize && this.replies == replies
      ensures cells[..] == contents && transactions == 0
    {
      this.blocksize := blocksize;
      this.replies := replies;
      cells := new byte[|contents|](j requires 0 <= j < |contents| => contents[j]);
      transactions := 0;
    }

    /** checkedread: on success `buf[0..size)` holds the device bytes
        `[address, address + size)`; the rest of `buf` is untouched. */
    method CheckedRead(address: int, buf: array<byte>, size: nat) returns (fault: Option<Fatal>)
      requires Valid() && buf != cells && size <= buf.Length && size <= cells.Length
      modifies buf, this`transactions
      ensures Valid() && transactions == old(transactions) + 1
      ensures fault == Fault(replies(old(transactions)), address, size)
      ensures buf[..] == Fill(old(buf[..]),
        Noisy(Block(cells[..], address, Moved(replies(old(transactions)), address, size)), replies(old(transactions))))
    {
      var r := replies(transactions);
      transactions := transactions + 1;
      if r.opening.Refused? {
        return Some(OpenFault(r.opening.errno));
      }
      var n := Landing(r, address);
      if n < 0 {
        return Some(SeekFailed);
      } else if n != address {
        return Some(SeekElsewhere(n));
      }
      var nn := Returned(r, size);
      var c := Moved(r, address, size);
      forall j | 0 <= j < c {
        buf[j] := Garble(cells[(address + j) % cells.Length], r, j);
      }
      if nn < 0 {
        return Some(TransferFailed);
      } else if nn != size {
        return Some(ShortTransfer(nn));
      }
      if !r.fsyncOk {
        return Some(FsyncFailed);
      }
      if !r.closeOk {
        return Some(CloseFailed);
      }
      return None;
    }

    /** checkedwrite: on success the device bytes `[address, address + size)`
        hold `buf[0..size)` and every other cell is unchanged. */
    method CheckedWrite(address: int, buf: array<byte>, size: nat) returns (fault: Option<Fatal>)
      requires Valid() && buf != cells && size <= buf.Length && size <= cells.Length
      modifies cells, this`transactions
      ensures Valid() && transactions == old(transactions) + 1
      ensures fault == Fault(replies(old(transactions)), address, size)
      ensures cells[..] == Put(old(cells[..]), address,
        Noisy(buf[..Moved(replies(old(transactions)), address, size)], replies(old(transactions))))
    {
      var r := replies(transactions);
      transactions := transactions + 1;
      if r.opening.Refused? {
        return Some(OpenFault(r.opening.errno));
      }
      var n := Landing(r, address);
      if n < 0 {
        return Some(SeekFailed);
      } else if n != address {
        return Some(SeekElsewhere(n));
      }
      var nn := Returned(r, size);
      var c := Moved(r, address, size);
      var len := cells.Length;
      forall p | 0 <= p < len && Offset(p, address, len) < c {
        cells[p] := Garble(buf[Offset(p, address, len)], r, Offset(p, address, len));
      }
      if nn < 0 {
        return Some(TransferFailed);
      } else if nn != size {
        return Some(ShortTransfer(nn));
      }
      if !r.fsyncOk {
        return Some(FsyncFailed);
      }
      if !r.closeOk {
        return Some(CloseFailed);
      }
      return None;
    }
  }
}
