/** The storage medium behind a raw block device.

    The medium is a sequence of physical byte cells.  A logical byte address `a`
    lands on cell `a % |s|`: a medium whose physical size is smaller than the
    size the device reports silently folds high addresses onto low ones, which
    is the address-line truncation of counterfeit flash.  A medium at least as
    large as every address used behaves as a plain byte array.
 */
module Media {

  /** An unsigned char. */
  newtype byte = x: int | 0 <= x < 256

  /** Division by a positive modulus has a unique remainder. */
  lemma ModUnique(a: int, len: int, q: int, r: int)
    requires len > 0 && a == len * q + r && 0 <= r < len
    ensures a % len == r && a / len == q
  {
    var q' := a / len;
    assert len * q' + a % len == len * q + r;
    if q' > q {
      MulAtLeast(len, q' - q);
      assert false;
    } else if q' < q {
      MulAtLeast(len, q - q');
      assert false;
    }
  }

  lemma MulAtLeast(len: int, d: int)
    requires len > 0 && d >= 1
    ensures len * d >= len
  {
    assert len * d == len + len * (d - 1);
  }

  /** Cell reached `j` bytes after logical address `at`: the cell of `at`
      advanced by `j`, folded once around the end of the medium. */
  lemma CellAfter(at: int, j: int, len: int)
    requires len > 0 && 0 <= j < len
    ensures (at + j) % len == if at % len + j < len then at % len + j else at % len + j - len
  {
    var q, st := at / len, at % len;
    assert at == len * q + st;
    if st + j < len {
      ModUnique(at + j, len, q, st + j);
    } else {
      assert at + j == len * (q + 1) + (st + j - len);
      ModUnique(at + j, len, q + 1, st + j - len);
    }
  }

  /** How many bytes after logical address `at` the transfer reaches cell `p`. */
  function Offset(p: int, at: int, len: int): int
    requires len > 0
  {
    var st := at % len;
    if p >= st then p - st else p + len - st
  }

  /** `Offset` and the address-to-cell map are inverse to each other. */
  lemma OffsetOfCell(at: int, j: int, len: int)
    requires len > 0 && 0 <= j < len
    ensures Offset((at + j) % len, at, len) == j
  {
    CellAfter(at, j, len);
  }

  lemma CellOfOffset(p: int, at: int, len: int)
    requires len > 0 && 0 <= p < len
    ensures 0 <= Offset(p, at, len) < len
    ensures (at + Offset(p, at, len)) % len == p
  {
    CellAfter(at, Offset(p, at, len), len);
  }

  /** The `n` bytes found at logical addresses `at`, `at + 1`, ... */
  function Block(s: seq<byte>, at: int, n: nat): (r: seq<byte>)
    requires |s| > 0
    ensures |r| == n
  {
    seq(n, j requires 0 <= j < n => s[(at + j) % |s|])
  }

  /** The medium after the bytes `d` are stored from logical address `at` on:
      the cells the transfer reaches take the bytes of `d`, every other cell
      keeps its value. */
  function Put(s: seq<byte>, at: int, d: seq<byte>): (r: seq<byte>)
    requires 0 < |s| && |d| <= |s|
    ensures |r| == |s|
  {
    seq(|s|, p requires 0 <= p < |s| =>
      if Offset(p, at, |s|) < |d| then d[Offset(p, at, |s|)] else s[p])
  }

  /** Reading back what was just stored gives exactly the stored bytes. */
  lemma ReadAfterWrite(s: seq<byte>, at: int, d: seq<byte>)
    requires 0 < |s| && |d| <= |s|
    ensures Block(Put(s, at, d), at, |d|) == d
  {
    forall j | 0 <= j < |d| ensures Block(Put(s, at, d), at, |d|)[j] == d[j] {
      OffsetOfCell(at, j, |s|);
    }
  }

  /** Storing the bytes that are already there changes nothing. */
  lemma WriteBackIdentity(s: seq<byte>, at: int, n: nat)
    requires 0 < |s| && n <= |s|
    ensures Put(s, at, Block(s, at, n)) == s
  {
    forall p | 0 <= p < |s| ensures Put(s, at, Block(s, at, n))[p] == s[p] {
      CellOfOffset(p, at, |s|);
    }
  }

  /** A second store over the same range hides the first entirely. */
  lemma PutTwice(s: seq<byte>, at: int, d: seq<byte>, e: seq<byte>)
    requires 0 < |s| && |d| == |e| <= |s|
    ensures Put(Put(s, at, d), at, e) == Put(s, at, e)
  {
  }

  /** Overwriting a range and then restoring its old contents restores the
      whole medium, whatever the range folds onto. */
  lemma OverwriteThenRestore(s: seq<byte>, at: int, d: seq<byte>)
    requires 0 < |s| && |d| <= |s|
    ensures Put(Put(s, at, d), at, Block(s, at, |d|)) == s
  {
    PutTwice(s, at, d, Block(s, at, |d|));
    WriteBackIdentity(s, at, |d|);
  }

  /** On a range that does not reach the end of the medium, a logical block is
      the plain slice of the cells. */
  lemma BlockInRange(s: seq<byte>, at: int, n: nat)
    requires 0 < |s| && 0 <= at && at + n <= |s|
    ensures Block(s, at, n) == s[at..at + n]
  {
    forall j | 0 <= j < n ensures Block(s, at, n)[j] == s[at + j] {
      ModUnique(at + j, |s|, 0, at + j);
    }
  }

  /** On such a range a store replaces exactly the bytes `[at, at + |d|)` and
      leaves every other byte unchanged. */
  lemma PutInRange(s: seq<byte>, at: int, d: seq<byte>)
    requires 0 < |s| && 0 <= at && at + |d| <= |s|
    ensures Put(s, at, d) == s[..at] + d + s[at + |d|..]
  {
    if at < |s| {
      ModUnique(at, |s|, 0, at);
    } else {
      ModUnique(at, |s|, 1, 0);
    }
    var r := s[..at] + d + s[at + |d|..];
    forall p | 0 <= p < |s| ensures Put(s, at, d)[p] == r[p] {
      if p < at {
        assert Offset(p, at, |s|) == p + |s| - at >= |d|;
      }
    }
  }
}
