/** File metadata (common/file_metadata.cpp) and how a file is cut into pieces. */
module Metadata {
  import opened Text

  const PIECE_SIZE: nat := 512 * 1024

  function PieceCountForSize(size: nat): nat {
    size / PIECE_SIZE + if size % PIECE_SIZE != 0 then 1 else 0
  }

  datatype FileMetadata = FileMetadata(size: U64, fullHash: Bytes, pieceHashes: seq<Bytes>) {
    function PieceCount(): nat {
      |pieceHashes|
    }

    /** 64-bit unsigned arithmetic: the subtraction wraps for an index past the end. */
    function PieceLength(index: nat): nat {
      var left := (size - index * PIECE_SIZE) % U64_LIMIT;
      if left < PIECE_SIZE then left else PIECE_SIZE
    }

    predicate Valid() {
      && IsSha1Hex(fullHash)
      && |pieceHashes| == PieceCountForSize(size)
      && forall hash | hash in pieceHashes :: IsSha1Hex(hash)
    }

    function PieceHashList(): Bytes {
      if pieceHashes == [] then Sep('-') else Join(pieceHashes, ',')
    }
  }

  function ParsePieceHashList(text: Bytes): seq<Bytes> {
    if text == Sep('-') then [] else Split(text, ',')
  }

  /** Byte offset at which a piece starts. */
  function PieceOffset(index: nat): nat {
    index * PIECE_SIZE
  }

  /** The pieces are consecutive, nonempty, at most PIECE_SIZE long, and end at `size`. */
  lemma PieceBounds(metadata: FileMetadata, index: nat)
    requires index < PieceCountForSize(metadata.size)
    ensures 1 <= metadata.PieceLength(index) <= PIECE_SIZE
    ensures PieceOffset(index) + metadata.PieceLength(index) ==
            if index + 1 < PieceCountForSize(metadata.size) then PieceOffset(index + 1) else metadata.size
  {
  }

  /** Every byte position below `size` lies in exactly one piece. */
  lemma PieceTiling(metadata: FileMetadata, position: nat)
    requires position < metadata.size
    ensures position / 524288 < PieceCountForSize(metadata.size)
    ensures forall index: nat | index < PieceCountForSize(metadata.size) ::
              PieceOffset(index) <= position < PieceOffset(index) + metadata.PieceLength(index) <==>
              index == position / 524288
  {
    forall index: nat | index < PieceCountForSize(metadata.size)
      ensures PieceOffset(index) <= position < PieceOffset(index) + metadata.PieceLength(index) <==>
              index == position / PIECE_SIZE
    {
      PieceBounds(metadata, index);
    }
  }

  lemma PieceHashListRoundTrip(metadata: FileMetadata)
    requires metadata.Valid()
    ensures ParsePieceHashList(metadata.PieceHashList()) == metadata.pieceHashes
    ensures IsWord(metadata.PieceHashList())
  {
    var hashes := metadata.pieceHashes;
    if hashes != [] {
      assert !IsHexDigit(',') && !IsHexDigit('-');
      assert Without(hashes, ',');
      SplitJoin(hashes, ',');
      SplitOne(Sep('-'), ',');
      assert hashes[0] in hashes && |hashes[0]| == 40;
      var text := Join(hashes, ',');
      forall c | c in text ensures !IsSpace(c) {
        JoinChars(hashes, ',', c);
      }
    }
  }

  /** Valid metadata has 40 hex digits for every hash, and as many pieces of 512 KiB as the size just needs. */
  lemma ValidExact(metadata: FileMetadata)
    ensures metadata.Valid() <==>
              && |metadata.fullHash| == 40 && AllHex(metadata.fullHash)
              && (forall hash | hash in metadata.pieceHashes :: |hash| == 40 && AllHex(hash))
              && (|metadata.pieceHashes| - 1) * 524288 < metadata.size <= |metadata.pieceHashes| * 524288
  {
    CountExact(metadata.size, |metadata.pieceHashes|);
  }

  lemma CountExact(size: nat, count: nat)
    ensures count == PieceCountForSize(size) <==> (count - 1) * 524288 < size <= count * 524288
  {
  }
}
