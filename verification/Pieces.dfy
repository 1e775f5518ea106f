/** The pieces of a file, and the metadata that describes them (client/storage/piece_file.cpp). */
module Pieces {
  import opened Text
  import opened Metadata
  import opened PeerProtocol

  /** SHA-1 as 40 hex digits (section 6.1 of FIPS 180-4), from outside the model. */
  type Sha1Hex = Bytes -> Bytes

  function PieceEnd(size: nat, index: nat): nat {
    if PieceOffset(index + 1) <= size then PieceOffset(index + 1) else size
  }

  function Piece(content: Bytes, index: nat): Bytes
    requires index < PieceCountForSize(|content|)
  {
    content[PieceOffset(index)..PieceEnd(|content|, index)]
  }

  /** The metadata of a file with these bytes. */
  function MetadataOf(sha: Sha1Hex, content: Bytes): FileMetadata
    requires |content| < U64_LIMIT
  {
    FileMetadata(|content|, sha(content),
                 seq(PieceCountForSize(|content|), i requires 0 <= i < PieceCountForSize(|content|) =>
                   sha(Piece(content, i))))
  }

  /** Reading a piece at its stated length gives exactly that piece. */
  lemma ReadPieceExact(content: Bytes, metadata: FileMetadata, index: nat)
    requires metadata.size == |content| && index < PieceCountForSize(|content|)
    ensures ReadPiece(content, index, metadata.PieceLength(index)) == Some(Piece(content, index))
    ensures |Piece(content, index)| == metadata.PieceLength(index)
  {
    PieceBounds(metadata, index);
  }

  /** Hashing a file always gives valid metadata, whose i-th hash is that of the bytes a read of piece i returns. */
  lemma MetadataOfValid(sha: Sha1Hex, content: Bytes)
    requires |content| < U64_LIMIT && forall data :: IsSha1Hex(sha(data))
    ensures var metadata := MetadataOf(sha, content);
            && metadata.Valid()
            && forall i | 0 <= i < metadata.PieceCount() ::
                 ReadPiece(content, i, metadata.PieceLength(i)).Some? &&
                 metadata.pieceHashes[i] == sha(ReadPiece(content, i, metadata.PieceLength(i)).value)
  {
    var metadata := MetadataOf(sha, content);
    forall i | 0 <= i < metadata.PieceCount()
      ensures ReadPiece(content, i, metadata.PieceLength(i)) == Some(Piece(content, i))
    {
      ReadPieceExact(content, metadata, i);
    }
  }

  /** A file is determined by its length and its pieces. */
  lemma PiecesDetermine(a: Bytes, b: Bytes)
    requires |a| == |b|
    requires forall i | 0 <= i < PieceCountForSize(|a|) :: Piece(a, i) == Piece(b, i)
    ensures a == b
  {
    forall position | 0 <= position < |a| ensures a[position] == b[position] {
      var i := position / PIECE_SIZE;
      assert i < PieceCountForSize(|a|);
      assert PieceOffset(i) <= position < PieceEnd(|a|, i);
      assert Piece(a, i)[position - PieceOffset(i)] == a[position];
      assert Piece(b, i)[position - PieceOffset(i)] == b[position];
    }
  }
}
