/** A file on disk addressed by piece number (client/storage/piece_file.cpp). */
module PieceFileClass {
  import opened Text
  import opened Metadata
  import opened PeerProtocol
  import opened Pieces

  /** What one pread or pwrite call comes back with; a count is cut to what the call could move. */
  datatype IoResult = Interrupted | Failed | Moved(count: nat)

  function Min(a: nat, b: nat): nat {
    if a < b then a else b
  }

  /** Number of calls that move at least one byte, if no call fails or moves nothing. */
  function Moves(io: seq<IoResult>): nat {
    if io == [] then 0 else (if io[0].Moved? then 1 else 0) + Moves(io[1..])
  }

  predicate Steady(io: seq<IoResult>) {
    forall result | result in io :: !result.Failed? && (result.Moved? ==> result.count > 0)
  }

  /** A file after writing `data` at `offset`; a gap before it reads as zeros. */
  function Overwrite(content: Bytes, offset: nat, data: Bytes): Bytes {
    if data == [] then content
    else if offset <= |content| then
      content[..offset] + data + (if offset + |data| <= |content| then content[offset + |data|..] else [])
    else content + seq(offset - |content|, _ => '\0') + data
  }

  lemma OverwriteMore(content: Bytes, offset: nat, a: Bytes, b: Bytes)
    ensures Overwrite(Overwrite(content, offset, a), offset + |a|, b) == Overwrite(content, offset, a + b)
  {
    if a == [] {
      assert a + b == b;
    } else if b == [] {
      assert a + b == a;
    } else {
      assert Overwrite(content, offset, a + b) == Overwrite(Overwrite(content, offset, a), offset + |a|, b);
    }
  }

  /** Exactly the bytes after a write: the data in its place, the old bytes around it, zeros in a gap. */
  lemma OverwriteExact(content: Bytes, offset: nat, data: Bytes)
    requires data != []
    ensures var after := Overwrite(content, offset, data);
            && |after| == (if |content| < offset + |data| then offset + |data| else |content|)
            && forall i | 0 <= i < |after| ::
                 after[i] == if offset <= i < offset + |data| then data[i - offset]
                             else if i < |content| then content[i] else '\0'
  {
  }

  class PieceFile {
    var content: Bytes

    /** Opening for writing sets the length: cut, or extended with zeros. */
    constructor OpenForWriting(existing: Bytes, size: nat)
      ensures content == Resized(existing, size)
    {
      content := Resized(existing, size);
    }

    /** `io` is what the successive pread calls come back with. A read succeeds only with the exact
        one-shot bytes, and it does succeed if they exist and the calls keep moving bytes. */
    method Read(index: nat, length: nat, io: seq<IoResult>) returns (ok: bool, data: Bytes)
      ensures ok ==> ReadPiece(content, index, length) == Some(data)
      ensures ReadPiece(content, index, length).Some? && Steady(io) && Moves(io) >= length ==> ok
    {
      hide ReadPiece;
      var buffer := new Byte[length](_ => '\0');
      var offset, done, call := PieceOffset(index), 0, 0;
      while done < length
        invariant 0 <= done <= length && 0 <= call <= |io|
        invariant done > 0 ==> offset + done <= |content|
        invariant forall i | 0 <= i < done :: buffer[i] == content[offset + i]
        invariant ReadPiece(content, index, length).Some? && Steady(io) ==>
                  done + Moves(io[call..]) >= Min(Moves(io), length)
        decreases |io| - call
      {
        if call == |io| {
          assert io[call..] == [];
          return false, buffer[..];
        }
        assert io[call..][1..] == io[call + 1..];
        var result := io[call];
        call := call + 1;
        if result.Interrupted? {
          continue;
        }
        ReadNeedsBytes(content, index, length);
        var ahead := if offset + done <= |content| then |content| - offset - done else 0;
        var count := if result.Failed? then 0 else Min(result.count, Min(length - done, ahead));
        if count == 0 {
          assert result in io;
          return false, buffer[..];
        }
        forall i | 0 <= i < count {
          buffer[done + i] := content[offset + done + i];
        }
        done := done + count;
      }
      data := buffer[..];
      ReadWhole(content, index, length, data);
      return true, data;
    }

    /** A write that succeeds stores exactly the data at the piece's offset; one that fails has stored
        some prefix of it and touched nothing else. */
    method Write(index: nat, data: Bytes, io: seq<IoResult>) returns (ok: bool, ghost stored: nat)
      modifies this
      ensures stored <= |data| && content == Overwrite(old(content), PieceOffset(index), data[..stored])
      ensures ok ==> stored == |data| && data[..stored] == data
      ensures Steady(io) && Moves(io) >= |data| ==> ok
    {
      hide Overwrite;
      var offset, done, call := PieceOffset(index), 0, 0;
      OverwriteNothing(content, offset);
      while done < |data|
        invariant 0 <= done <= |data| && 0 <= call <= |io|
        invariant content == Overwrite(old(content), offset, data[..done])
        invariant Steady(io) ==> done + Moves(io[call..]) >= Min(Moves(io), |data|)
        decreases |io| - call
      {
        if call == |io| {
          assert io[call..] == [];
          return false, done;
        }
        assert io[call..][1..] == io[call + 1..];
        var result := io[call];
        call := call + 1;
        if result.Interrupted? {
          continue;
        }
        var count := if result.Failed? then 0 else Min(result.count, |data| - done);
        if count == 0 {
          assert result in io;
          return false, done;
        }
        OverwriteMore(old(content), offset, data[..done], data[done..done + count]);
        assert data[..done] + data[done..done + count] == data[..done + count];
        content := Overwrite(content, offset + done, data[done..done + count]);
        done := done + count;
      }
      assert data[..done] == data;
      return true, done;
    }
  }

  /** ftruncate. */
  function Resized(content: Bytes, size: nat): (r: Bytes)
    ensures |r| == size
    ensures forall i | 0 <= i < size :: r[i] == if i < |content| then content[i] else '\0'
  {
    if size <= |content| then content[..size] else content + seq(size - |content|, _ => '\0')
  }

  lemma OverwriteNothing(content: Bytes, offset: nat)
    ensures Overwrite(content, offset, []) == content
  {
  }

  lemma ReadNeedsBytes(content: Bytes, index: nat, length: nat)
    ensures ReadPiece(content, index, length).Some? ==> length == 0 || PieceOffset(index) + length <= |content|
  {
  }

  lemma ReadWhole(content: Bytes, index: nat, length: nat, data: Bytes)
    requires |data| == length && (length > 0 ==> PieceOffset(index) + length <= |content|)
    requires forall i | 0 <= i < length :: data[i] == content[PieceOffset(index) + i]
    ensures ReadPiece(content, index, length) == Some(data)
  {
    if length > 0 {
      assert content[PieceOffset(index)..PieceOffset(index) + length] == data;
    }
  }

  /** PieceFile::hash: reads the file a buffer at a time, hashing each part and the running whole. */
  method HashFile(sha: Sha1Hex, content: Bytes) returns (metadata: FileMetadata)
    requires |content| < U64_LIMIT
    ensures metadata == MetadataOf(sha, content)
  {
    hide MetadataOf;
    var whole: Bytes := [];
    var hashes: seq<Bytes> := [];
    var size := 0;
    while size < |content|
      invariant size <= |content| && whole == content[..size]
      invariant |hashes| <= PieceCountForSize(|content|)
      invariant size == if |hashes| < PieceCountForSize(|content|) then PieceOffset(|hashes|) else |content|
      invariant forall i | 0 <= i < |hashes| :: hashes[i] == sha(Piece(content, i))
    {
      var length := Min(PIECE_SIZE, |content| - size);
      var buffer := content[size..size + length];
      assert |hashes| < PieceCountForSize(|content|);
      assert buffer == Piece(content, |hashes|);
      hashes := hashes + [sha(buffer)];
      whole := whole + buffer;
      size := size + length;
    }
    assert whole == content;
    metadata := FileMetadata(size, sha(whole), hashes);
    SameMetadata(sha, content, metadata);
  }

  lemma SameMetadata(sha: Sha1Hex, content: Bytes, metadata: FileMetadata)
    requires |content| < U64_LIMIT && metadata.size == |content| && metadata.fullHash == sha(content)
    requires |metadata.pieceHashes| == PieceCountForSize(|content|)
    requires forall i | 0 <= i < |metadata.pieceHashes| :: metadata.pieceHashes[i] == sha(Piece(content, i))
    ensures metadata == MetadataOf(sha, content)
  {
  }
}
