/** How a torrent's bytes are cut into pieces. */
module Pieces {
  import opened Bytes

  /** The metainfo fields the engine works from. */
  datatype Torrent = Torrent(length: int, pieceLength: int, pieces: seq<byte>)

  datatype PieceError = InvalidTotalLength | InvalidPieceLength | InvalidPieceIndex | IndexOutOfRange

  datatype LengthResult = Length(length: int) | Error(error: PieceError)

  ghost predicate Valid(tf: Torrent) {
    tf.length > 0 && tf.pieceLength > 0
  }

  function PieceCount(tf: Torrent): int
    requires tf.length >= 0 && tf.pieceLength > 0
  {
    tf.length / tf.pieceLength + if tf.length % tf.pieceLength != 0 then 1 else 0
  }

  function CheckedLengthAt(totalLength: int, standardLength: int, index: int): LengthResult {
    if totalLength <= 0 then Error(InvalidTotalLength)
    else if standardLength <= 0 then Error(InvalidPieceLength)
    else if index < 0 then Error(InvalidPieceIndex)
    else
      var remainder := totalLength % standardLength;
      var pieceCount := totalLength / standardLength + if remainder > 0 then 1 else 0;
      if index >= pieceCount then Error(IndexOutOfRange)
      else if remainder > 0 && index == pieceCount - 1 then Length(remainder)
      else Length(standardLength)
  }

  /** Zero for an index without a piece. */
  function LengthAt(tf: Torrent, index: int): int {
    match CheckedLengthAt(tf.length, tf.pieceLength, index)
    case Length(n) => n
    case Error(_) => 0
  }

  function Offset(tf: Torrent, index: int): int {
    index * tf.pieceLength
  }

  /** Piece i is one of the torrent's and lies wholly within a run of n bytes. */
  predicate Stored(tf: Torrent, n: nat, i: int) {
    && tf.length > 0 && tf.pieceLength > 0 && 0 <= i < PieceCount(tf)
    && Offset(tf, i) + LengthAt(tf, i) <= n
  }

  const HASH_SIZE := 20

  /** VerifyPiece: the hash of the data equals the piece's slice of the metainfo's hashes; an
      index past the hashes is an error. */
  predicate Verifies(tf: Torrent, sha1: seq<byte> -> seq<byte>, index: int, data: seq<byte>) {
    && 0 <= index && HASH_SIZE * index + HASH_SIZE <= |tf.pieces|
    && sha1(data) == tf.pieces[HASH_SIZE * index..HASH_SIZE * index + HASH_SIZE]
  }

  /** Piece i is on disk in full and hashes to its twenty bytes of the metainfo. */
  ghost predicate IntactOnDisk(tf: Torrent, sha1: seq<byte> -> seq<byte>, flat: seq<byte>, i: int) {
    && 0 <= i && 20 * i + 20 <= |tf.pieces|
    && 0 <= Offset(tf, i) <= Offset(tf, i) + LengthAt(tf, i) <= |flat|
    && sha1(flat[Offset(tf, i)..Offset(tf, i) + LengthAt(tf, i)]) == tf.pieces[20 * i..20 * i + 20]
  }

  lemma OffsetNext(tf: Torrent, i: int)
    ensures Offset(tf, i + 1) == Offset(tf, i) + tf.pieceLength
  {
  }

  lemma OffsetMonotone(tf: Torrent, i: int, j: int)
    requires tf.pieceLength > 0 && i <= j
    ensures Offset(tf, i) <= Offset(tf, j)
  {
    assert (j - i) * tf.pieceLength >= 0;
  }

  /** Each piece is non-empty, and begins where the previous one ends; the last ends at the total. */
  lemma PiecesTile(tf: Torrent, i: int)
    requires Valid(tf) && 0 <= i < PieceCount(tf)
    ensures 0 < LengthAt(tf, i) <= tf.pieceLength
    ensures 0 <= Offset(tf, i) < tf.length
    ensures Offset(tf, i) + LengthAt(tf, i)
         == if i + 1 < PieceCount(tf) then Offset(tf, i + 1) else tf.length
    ensures Offset(tf, i) + LengthAt(tf, i) <= tf.length
  {
    var full := tf.length / tf.pieceLength;
    assert tf.length == full * tf.pieceLength + tf.length % tf.pieceLength;
    OffsetNext(tf, i);
    if i < full {
      OffsetMonotone(tf, i + 1, full);
    }
    OffsetMonotone(tf, 0, i);
  }

  lemma PieceEnd(tf: Torrent, i: int)
    requires Valid(tf) && 0 <= i < PieceCount(tf)
    ensures 0 <= Offset(tf, i) && 0 < LengthAt(tf, i) <= tf.pieceLength
    ensures Offset(tf, i) + LengthAt(tf, i) <= tf.length
  {
    PiecesTile(tf, i);
  }

  /** A run of bytes has room for every piece iff it is no shorter than the torrent. */
  lemma AllStored(tf: Torrent, n: nat)
    requires Valid(tf)
    ensures (forall i :: 0 <= i < PieceCount(tf) ==> Stored(tf, n, i)) <==> tf.length <= n
  {
    if tf.length <= n {
      forall i | 0 <= i < PieceCount(tf) ensures Stored(tf, n, i) {
        PieceEnd(tf, i);
      }
    } else {
      PiecesTile(tf, 0);
      PiecesTile(tf, PieceCount(tf) - 1);
      assert !Stored(tf, n, PieceCount(tf) - 1);
    }
  }

  /** Which error: lengths first, then the index. */
  lemma ErrorKinds(total: int, standard: int, i: int)
    ensures CheckedLengthAt(total, standard, i) == Error(InvalidTotalLength) <==> total <= 0
    ensures CheckedLengthAt(total, standard, i) == Error(InvalidPieceLength) <==> total > 0 && standard <= 0
    ensures CheckedLengthAt(total, standard, i) == Error(InvalidPieceIndex) <==> total > 0 && standard > 0 && i < 0
  {
  }

  /** A length error is reported exactly for what is not a piece. */
  lemma LengthErrors(tf: Torrent, i: int)
    ensures CheckedLengthAt(tf.length, tf.pieceLength, i).Error?
       <==> !(Valid(tf) && 0 <= i < PieceCount(tf))
    ensures LengthAt(tf, i) > 0 <==> Valid(tf) && 0 <= i < PieceCount(tf)
  {
    if Valid(tf) && 0 <= i < PieceCount(tf) { PiecesTile(tf, i); }
  }

  lemma PieceIndexOfByte(tf: Torrent, g: int)
    requires Valid(tf) && 0 <= g < tf.length
    ensures var p := g / tf.pieceLength;
            0 <= p < PieceCount(tf) && Offset(tf, p) <= g < Offset(tf, p + 1)
  {
    var p, full := g / tf.pieceLength, tf.length / tf.pieceLength;
    assert g == Offset(tf, p) + g % tf.pieceLength;
    assert tf.length == Offset(tf, full) + tf.length % tf.pieceLength;
    OffsetNext(tf, p);
    OffsetNext(tf, full);
    if p < 0 { OffsetMonotone(tf, p + 1, 0); }
    if p > full { OffsetMonotone(tf, full + 1, p); }
  }

  /** Every byte of the torrent lies in exactly one piece. */
  lemma PieceOfByte(tf: Torrent, g: int, i: int)
    requires Valid(tf) && 0 <= g < tf.length && 0 <= i < PieceCount(tf)
    ensures 0 <= g / tf.pieceLength < PieceCount(tf)
    ensures Offset(tf, i) <= g < Offset(tf, i) + LengthAt(tf, i) <==> i == g / tf.pieceLength
  {
    var p := g / tf.pieceLength;
    PieceIndexOfByte(tf, g);
    PiecesTile(tf, i);
    if i < p {
      OffsetMonotone(tf, i + 1, p);
    } else if p < i {
      OffsetMonotone(tf, p + 1, i);
    }
  }

  // ---------- sums of piece lengths ----------

  /** The bytes in those of the first n pieces that are in s. */
  ghost function SumOver(tf: Torrent, s: set<int>, n: nat): int {
    if n == 0 then 0
    else SumOver(tf, s, n - 1) + if n - 1 in s then LengthAt(tf, n - 1) else 0
  }

  ghost function SumOfPieces(tf: Torrent, s: set<int>): int
    requires Valid(tf)
  {
    SumOver(tf, s, PieceCount(tf))
  }

  lemma {:induction false} SumOverAdd(tf: Torrent, s: set<int>, i: int, n: nat)
    requires i !in s
    ensures SumOver(tf, s + {i}, n) == SumOver(tf, s, n) + if 0 <= i < n then LengthAt(tf, i) else 0
  {
    if n > 0 { SumOverAdd(tf, s, i, n - 1); }
  }

  lemma {:induction false} SumOverBound(tf: Torrent, s: set<int>, n: nat)
    requires Valid(tf) && n <= PieceCount(tf)
    ensures 0 <= SumOver(tf, s, n) <= if n < PieceCount(tf) then Offset(tf, n) else tf.length
    ensures SumOver(tf, s, n) == (if n < PieceCount(tf) then Offset(tf, n) else tf.length)
       <==> forall i :: 0 <= i < n ==> i in s
  {
    if n > 0 {
      SumOverBound(tf, s, n - 1);
      PiecesTile(tf, n - 1);
    } else {
      PiecesTile(tf, 0);
    }
  }

  /** The pieces in s never add up to more than the torrent, and add up to it only together. */
  lemma SumOfPiecesBound(tf: Torrent, s: set<int>)
    requires Valid(tf)
    ensures 0 <= SumOfPieces(tf, s) <= tf.length
    ensures SumOfPieces(tf, s) == tf.length <==> forall i :: 0 <= i < PieceCount(tf) ==> i in s
  {
    SumOverBound(tf, s, PieceCount(tf));
  }

  lemma SumOfPiecesAdd(tf: Torrent, s: set<int>, i: int)
    requires Valid(tf) && 0 <= i < PieceCount(tf) && i !in s
    ensures SumOfPieces(tf, s + {i}) == SumOfPieces(tf, s) + LengthAt(tf, i)
  {
    SumOverAdd(tf, s, i, PieceCount(tf));
  }
}
