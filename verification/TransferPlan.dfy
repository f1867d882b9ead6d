/** The arithmetic of a chunked file transfer (bs-codec.h) and the receiver's bookkeeping
    (bs-mesh-conn.h, FileReceiveState): the plan a sender announces and the chunks a receiver takes. */
module TransferPlan {
  import opened Bytes
  import opened Sequences

  const CHUNK_DEFAULT: nat := 64 * 1024
  const CHUNK_MIN: nat := 4 * 1024
  const CHUNK_MAX: nat := 256 * 1024
  const U32: nat := 0x1_0000_0000

  /** effective_transfer_chunk_size: a declared size pulled into the safe range; 0 means that the
      peer declared none. */
  function EffectiveChunkSize(declared: nat, maxAllowed: nat): (size: nat)
    requires declared < U32
    ensures 4096 <= size <= 262144
    ensures declared > 0 ==> var most := Min(maxAllowed, 262144);
                             size == if declared < 4096 || most < 4096 then 4096 else Min(declared, most)
    ensures declared == 0 ==> size == if maxAllowed < 4096 then 4096 else Min(65536, maxAllowed)
  {
    var most := if Min(maxAllowed, CHUNK_MAX) < CHUNK_MIN then CHUNK_MIN else Min(maxAllowed, CHUNK_MAX);
    if declared == 0 then Min(CHUNK_DEFAULT, most)
    else Min(if declared < CHUNK_MIN then CHUNK_MIN else declared, most)
  }

  /** The size both ends work with; the size_t argument is cut to 32 bits first. */
  function ChunkSize(chunkRaw: nat): (size: nat)
    ensures 4096 <= size <= 262144
    ensures var declared := chunkRaw % 0x1_0000_0000;
            size == if declared == 0 then 65536 else if declared < 4096 then 4096 else Min(declared, 262144)
  {
    EffectiveChunkSize(chunkRaw % U32, CHUNK_MAX)
  }

  datatype Plan = Plan(chunks: nat) | Refused(reason: string)

  /** How many pieces: filesize / size, rounded up, at least one. */
  function Pieces(filesize: nat, size: nat): (n: nat)
    requires size > 0
    ensures n >= 1
  {
    var n := if filesize % size != 0 then filesize / size + 1 else filesize / size;
    if n == 0 then 1 else n
  }

  /** calculate_transfer_metadata; maxBytes 0 means no limit. */
  function CalculateMetadata(filesize: nat, maxBytes: nat, chunkRaw: nat): Plan {
    if maxBytes > 0 && filesize > maxBytes then Refused("file exceeds transfer.max_bytes")
    else
      var expected := Pieces(filesize, ChunkSize(chunkRaw));
      if expected >= U32 then Refused("file requires too many chunks") else Plan(expected)
  }

  /** validate_transfer_metadata. */
  function ValidateMetadata(filesize: nat, totalChunks: nat, maxBytes: nat, chunkRaw: nat): Plan {
    var plan := CalculateMetadata(filesize, maxBytes, chunkRaw);
    if plan.Plan? && totalChunks != plan.chunks then Refused("declared chunk count does not match file size")
    else plan
  }

  /** validate_transfer_chunk: the reason to refuse a chunk, None to take it. */
  function ChunkFault(expectedSize: nat, received: nat, expectedIndex: nat, expectedTotal: nat,
                      index: nat, total: nat, size: nat, chunkRaw: nat): Option<string>
  {
    if total != expectedTotal then Some("chunk total does not match transfer metadata")
    else if index != expectedIndex || index >= expectedTotal then Some("unexpected chunk index")
    else if received > expectedSize then Some("received byte count already exceeds declared size")
    else if size != Min(expectedSize - received, ChunkSize(chunkRaw)) then
      Some("chunk bytes do not match declared file size")
    else None
  }

  /** A file cut into pieces of one size, the last one shorter; no bytes are one empty piece. */
  function Split(filesize: nat, size: nat): seq<nat>
    requires size > 0
  {
    if filesize <= size then [filesize] else [size] + Split(filesize - size, size)
  }

  function Sum(sizes: seq<nat>): nat {
    if sizes == [] then 0 else sizes[0] + Sum(sizes[1..])
  }

  // ── The receiver ──────────────────────────────────────────────────────────────

  /** The counters of FileReceiveState. */
  datatype Receive = Receive(expectedSize: nat, totalChunks: nat, chunkRaw: nat, receivedBytes: nat, receivedChunks: nat)

  datatype Chunk = Chunk(index: nat, total: nat, size: nat)

  /** One FileChunk; None when it is refused. */
  function Take(r: Receive, c: Chunk): Option<Receive> {
    if ChunkFault(r.expectedSize, r.receivedBytes, r.receivedChunks, r.totalChunks,
                  c.index, c.total, c.size, r.chunkRaw).None?
    then Some(r.(receivedBytes := r.receivedBytes + c.size, receivedChunks := c.index + 1))
    else None
  }

  function TakeAll(r: Receive, cs: seq<Chunk>): Option<Receive>
    decreases |cs|
  {
    if cs == [] then Some(r)
    else
      var r' :- Take(r, cs[0]);
      TakeAll(r', cs[1..])
  }

  /** The run of chunks, numbered from `first` on, that has these sizes. */
  function Numbered(first: nat, total: nat, sizes: seq<nat>): (cs: seq<Chunk>)
    ensures |cs| == |sizes|
  {
    seq(|sizes|, i requires 0 <= i < |sizes| => Chunk(first + i, total, sizes[i]))
  }

  // ── Properties of the split ───────────────────────────────────────────────────

  lemma OnePieceLess(filesize: nat, size: nat)
    requires 0 < size < filesize
    ensures Pieces(filesize, size) == 1 + Pieces(filesize - size, size)
  {
    var q, r := filesize / size, filesize % size;
    assert (q - 1) * size == q * size - size;
    DivMod(filesize - size, size, q - 1, r);
    if q == 1 { assert r == filesize - size; }
  }

  lemma {:induction false} SplitShape(filesize: nat, size: nat)
    requires size > 0
    ensures |Split(filesize, size)| == Pieces(filesize, size)
    ensures Sum(Split(filesize, size)) == filesize
    ensures forall i :: 0 <= i < |Split(filesize, size)| ==> Split(filesize, size)[i] <= size
  {
    hide Pieces;
    if filesize > size {
      OnePieceLess(filesize, size);
      SplitShape(filesize - size, size);
      assert Split(filesize, size)[1..] == Split(filesize - size, size);
    } else {
      OnePiece(filesize, size);
      assert [filesize][1..] == [];
    }
  }

  lemma OnePiece(filesize: nat, size: nat)
    requires filesize <= size && size > 0
    ensures Pieces(filesize, size) == 1
  {
    if filesize < size {
      DivMod(filesize, size, 0, filesize);
    } else {
      DivMod(filesize, size, 1, 0);
    }
  }

  /** Only the last piece completes the file. */
  lemma {:induction false} NotBeforeTheLast(filesize: nat, size: nat, k: nat)
    requires size > 0 && k < |Split(filesize, size)|
    ensures filesize > 0 ==> Sum(Split(filesize, size)[..k]) < filesize
  {
    var s := Split(filesize, size);
    if k > 0 {
      NotBeforeTheLast(filesize - size, size, k - 1);
      assert s[..k][0] == size && s[..k][1..] == Split(filesize - size, size)[..k - 1];
    }
  }

  // ── The plan is exact ─────────────────────────────────────────────────────────

  lemma PlanCountsPieces(filesize: nat, totalChunks: nat, maxBytes: nat, chunkRaw: nat)
    ensures ValidateMetadata(filesize, totalChunks, maxBytes, chunkRaw).Plan? <==>
              (maxBytes == 0 || filesize <= maxBytes)
              && totalChunks == |Split(filesize, ChunkSize(chunkRaw))| < 0x1_0000_0000
  {
    SplitShape(filesize, ChunkSize(chunkRaw));
  }

  lemma NumberedStep(first: nat, total: nat, sizes: seq<nat>)
    requires sizes != []
    ensures var cs := Numbered(first, total, sizes);
            cs != [] && cs[0] == Chunk(first, total, sizes[0]) && cs[1..] == Numbered(first + 1, total, sizes[1..])
  {
  }

  /** The next chunk is taken exactly if it is the next piece. */
  lemma TakeIsNextPiece(r: Receive, n: nat)
    requires r.receivedBytes <= r.expectedSize
    ensures var todo := r.expectedSize - r.receivedBytes;
            Take(r, Chunk(r.receivedChunks, r.totalChunks, n))
            == if r.receivedChunks < r.totalChunks && n == Split(todo, ChunkSize(r.chunkRaw))[0]
               then Some(r.(receivedBytes := r.receivedBytes + n, receivedChunks := r.receivedChunks + 1)) else None
    ensures Split(r.expectedSize - r.receivedBytes, ChunkSize(r.chunkRaw))[0] <= r.expectedSize - r.receivedBytes
  {
  }

  lemma SplitStep(filesize: nat, size: nat)
    requires size > 0
    ensures var s := Split(filesize, size);
            s != [] && s[1..] == if s[0] == filesize then [] else Split(filesize - s[0], size)
    ensures Split(filesize, size)[0] <= filesize
  {
  }

  /** From any point of the transfer: the chunks still to come are accepted to the end exactly when
      their sizes are the split of the bytes still to come. */
  lemma {:induction false} RestOfPlan(r: Receive, sizes: seq<nat>)
    requires r.receivedBytes <= r.expectedSize
    requires var left := Split(r.expectedSize - r.receivedBytes, ChunkSize(r.chunkRaw));
             r.receivedChunks + |left| == r.totalChunks
    ensures var left := Split(r.expectedSize - r.receivedBytes, ChunkSize(r.chunkRaw));
            var end := TakeAll(r, Numbered(r.receivedChunks, r.totalChunks, sizes));
            end.Some? && end.value.receivedChunks == r.totalChunks <==> sizes == left
    ensures var end := TakeAll(r, Numbered(r.receivedChunks, r.totalChunks, sizes));
            end.Some? ==> end.value.receivedBytes == r.receivedBytes + Sum(sizes)
                          && end.value.receivedChunks == r.receivedChunks + |sizes|
    decreases |sizes|
  {
    hide ChunkSize, Split, Take, Numbered;
    var size := ChunkSize(r.chunkRaw);
    var todo := r.expectedSize - r.receivedBytes;
    var left := Split(todo, size);
    SplitStep(todo, size);
    if sizes != [] {
      NumberedStep(r.receivedChunks, r.totalChunks, sizes);
      TakeIsNextPiece(r, sizes[0]);
      if sizes[0] == left[0] {
        assert sizes == left <==> sizes[1..] == left[1..] by { SameTail(sizes, left); }
        var r' := r.(receivedBytes := r.receivedBytes + sizes[0], receivedChunks := r.receivedChunks + 1);
        if sizes[0] < todo {
          RestOfPlan(r', sizes[1..]);
        } else if |sizes| > 1 {
          NumberedStep(r'.receivedChunks, r'.totalChunks, sizes[1..]);
          TakeIsNextPiece(r', sizes[1]);
        }
      }
    }
  }

  lemma SameTail(a: seq<nat>, b: seq<nat>)
    requires a != [] && b != [] && a[0] == b[0]
    ensures a == b <==> a[1..] == b[1..]
  {
    assert a == [a[0]] + a[1..] && b == [b[0]] + b[1..];
  }

  /** If the metadata of a transfer is accepted, a run of chunks from index 0 takes it to its last
      chunk exactly when it is the split of the file; the bytes then add up to the file, and no
      shorter run already did. */
  lemma PlanIsExact(filesize: nat, totalChunks: nat, maxBytes: nat, chunkRaw: nat, sizes: seq<nat>)
    requires ValidateMetadata(filesize, totalChunks, maxBytes, chunkRaw).Plan?
    ensures var size := ChunkSize(chunkRaw);
            var end := TakeAll(Receive(filesize, totalChunks, chunkRaw, 0, 0), Numbered(0, totalChunks, sizes));
            && (end.Some? && end.value.receivedChunks == totalChunks <==> sizes == Split(filesize, size))
            && (sizes == Split(filesize, size) ==>
                  && end == Some(Receive(filesize, totalChunks, chunkRaw, filesize, totalChunks))
                  && (forall k :: 0 <= k < |sizes| && filesize > 0 ==> Sum(sizes[..k]) < filesize)
                  && (filesize == 0 ==> sizes == [0]))
  {
    var size := ChunkSize(chunkRaw);
    var start := Receive(filesize, totalChunks, chunkRaw, 0, 0);
    PlanCountsPieces(filesize, totalChunks, maxBytes, chunkRaw);
    RestOfPlan(start, sizes);
    SplitShape(filesize, size);
    hide ChunkSize, CalculateMetadata;
    TakeAllKeeps(start, Numbered(0, totalChunks, sizes));
    if sizes == Split(filesize, size) {
      forall k | 0 <= k < |sizes| && filesize > 0 ensures Sum(sizes[..k]) < filesize {
        NotBeforeTheLast(filesize, size, k);
      }
    }
  }

  /** Chunks never change what the metadata declared. */
  lemma {:induction false} TakeAllKeeps(r: Receive, cs: seq<Chunk>)
    ensures var end := TakeAll(r, cs);
            end.Some? ==> end.value.expectedSize == r.expectedSize && end.value.totalChunks == r.totalChunks
                          && end.value.chunkRaw == r.chunkRaw
    decreases |cs|
  {
    if cs != [] && Take(r, cs[0]).Some? {
      TakeAllKeeps(Take(r, cs[0]).value, cs[1..]);
    }
  }

  /** The sizes that a run of chunks claims. */
  function Sizes(cs: seq<Chunk>): (r: seq<nat>)
    ensures |r| == |cs|
  {
    if cs == [] then [] else [cs[0].size] + Sizes(cs[1..])
  }

  /** What is accepted is numbered in order and declares the total of the metadata. */
  lemma {:induction false} TakenIsNumbered(r: Receive, cs: seq<Chunk>)
    requires TakeAll(r, cs).Some?
    ensures cs == Numbered(r.receivedChunks, r.totalChunks, Sizes(cs))
    decreases |cs|
  {
    if cs != [] {
      var r' := Take(r, cs[0]).value;
      TakenIsNumbered(r', cs[1..]);
      NumberedStep(r.receivedChunks, r.totalChunks, Sizes(cs));
      assert Sizes(cs)[1..] == Sizes(cs[1..]);
      hide Take, TakeAll, Numbered;
      assert cs == [cs[0]] + cs[1..];
      var ns := Numbered(r.receivedChunks, r.totalChunks, Sizes(cs));
      assert ns == [ns[0]] + ns[1..];
    }
  }

  /** Of all runs of chunks, however they are numbered, one is accepted up to the last chunk: the split of
      the file, numbered from zero, each chunk with the total of the metadata. */
  lemma AcceptedIffSplit(filesize: nat, totalChunks: nat, maxBytes: nat, chunkRaw: nat, cs: seq<Chunk>)
    requires ValidateMetadata(filesize, totalChunks, maxBytes, chunkRaw).Plan?
    ensures var end := TakeAll(Receive(filesize, totalChunks, chunkRaw, 0, 0), cs);
            && (end.Some? && end.value.receivedChunks == totalChunks <==>
                  |cs| == totalChunks
                  && (forall i :: 0 <= i < |cs| ==> cs[i].index == i && cs[i].total == totalChunks)
                  && Sizes(cs) == Split(filesize, ChunkSize(chunkRaw)))
            && (end.Some? && end.value.receivedChunks == totalChunks ==> end.value.receivedBytes == filesize)
  {
    var start := Receive(filesize, totalChunks, chunkRaw, 0, 0);
    hide ValidateMetadata, TakeAll, ChunkSize, Split;
    PlanIsExact(filesize, totalChunks, maxBytes, chunkRaw, Sizes(cs));
    PlanCountsPieces(filesize, totalChunks, maxBytes, chunkRaw);
    if TakeAll(start, cs).Some? { TakenIsNumbered(start, cs); }
    if forall i :: 0 <= i < |cs| ==> cs[i].index == i && cs[i].total == totalChunks {
      assert cs == Numbered(0, totalChunks, Sizes(cs)) by { SizeAt(cs); }
    }
  }

  lemma {:induction false} SizeAt(cs: seq<Chunk>)
    ensures forall i :: 0 <= i < |cs| ==> Sizes(cs)[i] == cs[i].size
  {
    if cs != [] { SizeAt(cs[1..]); }
  }
}
