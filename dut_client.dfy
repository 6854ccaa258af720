/** The DUT client (dut-client.c): the reassembling reader
    `client_read_socket`, the one-shot writer `client_write_socket`, and the
    argument check and call sequence of `main`.

    As on the server side, `read` and `write` are oracles and the 600-second
    deadline of the reader is the length of its oracle. */
module DutClient {
  import opened Assist
  import opened CStrings
  import opened Communication

  /** What one call to `read` returns and the bytes it stores. */
  datatype ReadChunk = ReadChunk(len: int, bytes: seq<char>)

  /** A read stores exactly the bytes it reports, at most a buffer's worth; a
      failed read stores nothing. */
  predicate ValidRead(rd: ReadChunk)
  {
    if rd.len < 0 then rd.bytes == [] else rd.len <= MaxSize && |rd.bytes| == rd.len
  }

  predicate ValidReads(rs: seq<ReadChunk>)
  {
    forall i :: 0 <= i < |rs| ==> ValidRead(rs[i])
  }

  /** The chunk a read contributes: its bytes up to the first NUL. */
  function ChunkText(rd: ReadChunk): string
  {
    UpToNul(rd.bytes)
  }

  /** The accumulator as a string; NULL counts as empty. */
  function AccText(acc: Option<string>): string
  {
    if acc.Some? then acc.value else ""
  }

  /** The accumulator after a chunk is added: copied after the old contents
      when they are non-empty, copied alone otherwise. Either way it is the
      old text followed by the chunk. */
  function Appended(acc: Option<string>, t: string): (r: string)
    ensures r == AccText(acc) + t
  {
    if acc.Some? && |acc.value| > 0 then acc.value + t else t
  }

  /** The number of zero-byte reads that makes the reader give up. */
  const ZeroReadLimit: nat := 5

  /** What one read does to `client_read_socket`'s loop: it stops with a
      result, or goes on with a new accumulator and zero-read count. */
  datatype Progress = Stop(result: Option<string>) | Go(acc: Option<string>, zeros: nat)

  /** One read `rd`, with accumulator `acc` and `zeros` zero-byte reads seen
      so far: a negative read or the last zero-byte read allowed gives NULL;
      otherwise the chunk is appended, and the loop stops once the text holds
      the sentinel. */
  function Next(rd: ReadChunk, acc: Option<string>, zeros: nat): Progress
  {
    if rd.len < 0 then Stop(None)
    else
      var zeros' := if rd.len == 0 then zeros + 1 else zeros;
      if rd.len == 0 && zeros' >= ZeroReadLimit then Stop(None)
      else
        var acc' := Appended(acc, ChunkText(rd));
        if Contains(acc', Sentinel) then Stop(Some(acc')) else Go(Some(acc'), zeros')
  }

  /** The rest of `client_read_socket`'s loop, with accumulator `acc` and
      `zeros` zero-byte reads seen so far. */
  function Reassemble(rs: seq<ReadChunk>, acc: Option<string>, zeros: nat): Option<string>
    decreases |rs|
  {
    if rs == [] then acc
    else
      match Next(rs[0], acc, zeros)
      case Stop(r) => r
      case Go(acc', zeros') => Reassemble(rs[1..], acc', zeros')
  }

  /** `client_read_socket(sockfd)` when its successive reads return `rs`. */
  function ClientRead(rs: seq<ReadChunk>): Option<string>
  {
    Reassemble(rs, None, 0)
  }

  function Zeros(n: nat): (z: seq<char>)
    ensures |z| == n && NoNul(z) == (n == 0)
  {
    assert n > 0 ==> seq(n, _ => Nul)[0] == Nul;
    seq(n, _ => Nul)
  }

  /** `read` into a zeroed buffer of `size` bytes, then
      `chunk_buffer[chunk_buffer_len] = '\0'`, as written: the terminator goes
      in before the length is checked, so it is out of bounds (None) for a
      failed read and for a read that fills the buffer. */
  function StoreAsWritten(size: nat, rd: ReadChunk): (b: Option<seq<char>>)
    requires ValidRead(rd) && MaxSize <= size
    ensures b.None? <==> rd.len < 0 || rd.len >= size
    ensures b.Some? ==> b.value == rd.bytes + Zeros(size - |rd.bytes|)
  {
    if 0 <= rd.len < size then Some(rd.bytes + Zeros(size - |rd.bytes|)) else None
  }

  /** With the declared `char chunk_buffer[MAX_SIZE]`, a read that returns a
      whole piece of `write_socket` (4095 characters and their NUL, the first
      piece of any message of 4095 characters or more) puts its terminator
      one byte past the buffer; one more byte gives it room. */
  lemma FullReadOverflows(s: string)
    requires |s| >= PieceCapacity
    ensures var rd := ReadChunk(|Piece(s, 0)|, Piece(s, 0));
      ValidRead(rd) && StoreAsWritten(MaxSize, rd).None? && StoreAsWritten(MaxSize + 1, rd).Some?
  {
  }

  /** A failed read puts its terminator at `chunk_buffer[-1]`, before the
      error is looked at, whatever the buffer's size. */
  lemma FailedReadUnderruns(size: nat)
    requires MaxSize <= size
    ensures StoreAsWritten(size, ReadChunk(-1, [])).None?
  {
  }

  /** `read` into the zeroed chunk buffer, then the terminator. The buffer is
      one byte larger than the source declares, so the terminator of a full
      read fits; a failed read writes none, since the loop stops on it. */
  method StoreRead(chunk: array<char>, rd: ReadChunk)
    requires chunk.Length == MaxSize + 1 && chunk[..] == Zeros(MaxSize + 1) && ValidRead(rd)
    modifies chunk
    ensures chunk[..] == rd.bytes + Zeros(MaxSize + 1 - |rd.bytes|)
    ensures rd.len >= 0 ==> StoreAsWritten(chunk.Length, rd) == Some(chunk[..])
    ensures chunk[MaxSize] == Nul
  {
    var j := 0;
    while j < |rd.bytes|
      invariant 0 <= j <= |rd.bytes|
      invariant forall k :: 0 <= k < j ==> chunk[k] == rd.bytes[k]
      invariant forall k :: j <= k < chunk.Length ==> chunk[k] == Nul
    {
      chunk[j] := rd.bytes[j];
      j := j + 1;
    }
    if rd.len >= 0 {
      chunk[rd.len] := Nul;
    }
    assert chunk[..] == rd.bytes + Zeros(MaxSize + 1 - |rd.bytes|);
    assert chunk[MaxSize] == chunk[..][MaxSize];
  }

  /** `bzero(chunk_buffer, n)`: the first n bytes become zero, the rest stay. */
  method ZeroBuffer(chunk: array<char>, n: nat)
    requires n <= chunk.Length
    modifies chunk
    ensures chunk[..n] == Zeros(n) && chunk[n..] == old(chunk[n..])
  {
    var j := 0;
    while j < n
      invariant 0 <= j <= n
      invariant forall k :: 0 <= k < j ==> chunk[k] == Nul
      invariant forall k :: n <= k < chunk.Length ==> chunk[k] == old(chunk[k])
    {
      chunk[j] := Nul;
      j := j + 1;
    }
  }

  /** `bzero(chunk_buffer, MAX_SIZE)` after a chunk: the extra byte already
      holds NUL, so the whole buffer is zero again. */
  method ResetChunk(chunk: array<char>)
    requires chunk.Length == MaxSize + 1 && chunk[MaxSize] == Nul
    modifies chunk
    ensures chunk[..] == Zeros(MaxSize + 1)
  {
    ZeroBuffer(chunk, MaxSize);
    assert chunk[..] == chunk[..MaxSize] + chunk[MaxSize..];
  }

  /** The chunk buffer read as a C string holds the chunk. */
  lemma StoredText(rd: ReadChunk)
    requires ValidRead(rd)
    ensures UpToNul(rd.bytes + Zeros(MaxSize + 1 - |rd.bytes|)) == ChunkText(rd)
  {
    var z := Zeros(MaxSize + 1 - |rd.bytes|);
    assert rd.bytes + z == rd.bytes + [Nul] + z[1..];
    UpToNulStops(rd.bytes, z[1..]);
  }

  /** One iteration's use of the chunk buffer: `read` and the terminator,
      then the buffer read as a C string. */
  method ReceiveChunk(chunk: array<char>, rd: ReadChunk) returns (text: string)
    requires chunk.Length == MaxSize + 1 && chunk[..] == Zeros(MaxSize + 1) && ValidRead(rd)
    modifies chunk
    ensures text == ChunkText(rd) && chunk[MaxSize] == Nul
  {
    StoreRead(chunk, rd);
    StoredText(rd);
    text := UpToNul(chunk[..]);
  }

  /** One pass of the loop body: `read` into the chunk buffer, count a
      zero-byte read, append the chunk and look for the sentinel with
      `strstr`. The buffer is zeroed again when the loop goes on. */
  method ReadOnce(chunk: array<char>, rd: ReadChunk, received: Option<string>, errorCount: nat)
    returns (p: Progress)
    requires chunk.Length == MaxSize + 1 && chunk[..] == Zeros(MaxSize + 1) && ValidRead(rd)
    modifies chunk
    ensures p == Next(rd, received, errorCount)
    ensures p.Go? ==> chunk[..] == Zeros(MaxSize + 1)
  {
    var text := ReceiveChunk(chunk, rd);
    if rd.len < 0 {
      return Stop(None);
    }
    var count := errorCount;
    if rd.len == 0 {
      count := count + 1;
      if count >= ZeroReadLimit {
        return Stop(None);
      }
    }
    var data: string;
    if received.Some? && |received.value| > 0 {
      data := received.value + text;
    } else {
      data := text;
    }
    var found := StrStr(data, Sentinel);
    if found {
      return Stop(Some(data));
    }
    ResetChunk(chunk);
    return Go(Some(data), count);
  }

  /** The reassembling reader. Each positive read adds its bytes up to the
      first NUL to the accumulator; the loop stops once the accumulator
      contains the sentinel. A negative read, or the fifth zero-byte read of
      the call, discards everything; when the reads run out the accumulation
      so far is returned. The chunk buffer has the extra byte `StoreRead`
      needs. */
  method ClientReadSocket(rs: seq<ReadChunk>) returns (data: Option<string>)
    requires ValidReads(rs)
    ensures data == ClientRead(rs)
  {
    var chunk := new char[MaxSize + 1](_ => Nul);
    assert chunk[..] == Zeros(MaxSize + 1);
    var received: Option<string> := None;
    var errorCount: nat := 0;
    var i := 0;
    while i < |rs|
      invariant 0 <= i <= |rs|
      invariant chunk.Length == MaxSize + 1 && chunk[..] == Zeros(MaxSize + 1)
      invariant Reassemble(rs[i..], received, errorCount) == ClientRead(rs)
    {
      assert rs[i..][0] == rs[i] && rs[i..][1..] == rs[i + 1..];
      var p := ReadOnce(chunk, rs[i], received, errorCount);
      if p.Stop? {
        return p.result;
      }
      received, errorCount := p.acc, p.zeros;
      i := i + 1;
    }
    return received;
  }

  // ---------------------------------------------------------------------
  // What the reader promises

  /** The chunks a sequence of reads contributes. */
  function Texts(rs: seq<ReadChunk>): (ts: seq<string>)
    ensures |ts| == |rs|
  {
    if rs == [] then [] else [ChunkText(rs[0])] + Texts(rs[1..])
  }

  /** The number of zero-byte reads among `rs`. */
  function ZeroCount(rs: seq<ReadChunk>): nat
  {
    if rs == [] then 0 else (if rs[0].len == 0 then 1 else 0) + ZeroCount(rs[1..])
  }

  /** Chunks `ts` added one by one after `a` until the text holds the sentinel. */
  function StopFrom(ts: seq<string>, a: string): string
    decreases |ts|
  {
    if ts == [] then a
    else
      var a' := a + ts[0];
      if Contains(a', Sentinel) then a' else StopFrom(ts[1..], a')
  }

  lemma ConcatStep(ts: seq<string>, k: nat)
    requires 1 <= k <= |ts|
    ensures Concat(ts[..k]) == ts[0] + Concat(ts[1..][..k - 1])
  {
    assert ts[..k][1..] == ts[1..][..k - 1];
  }

  /** How many chunks `StopFrom` takes. */
  function StopCount(ts: seq<string>, a: string): (k: nat)
    ensures ts != [] ==> 1 <= k <= |ts|
    decreases |ts|
  {
    if ts == [] then 0
    else if Contains(a + ts[0], Sentinel) then 1
    else if |ts| == 1 then 1
    else 1 + StopCount(ts[1..], a + ts[0])
  }

  /** The text kept is the shortest run of whole chunks, from the first, whose
      accumulation holds the sentinel, including whatever follows the
      sentinel in its chunk; all of them when none does. */
  lemma {:induction false} StopFromShortest(ts: seq<string>, a: string)
    requires ts != []
    ensures var k := StopCount(ts, a);
      StopFrom(ts, a) == a + Concat(ts[..k])
      && (forall j :: 1 <= j < k ==> !Contains(a + Concat(ts[..j]), Sentinel))
      && (Contains(StopFrom(ts, a), Sentinel) || k == |ts|)
    decreases |ts|
  {
    var a' := a + ts[0];
    ConcatStep(ts, 1);
    assert ts[1..][..0] == [];
    assert a + Concat(ts[..1]) == a';
    if !Contains(a', Sentinel) && |ts| > 1 {
      var k' := StopCount(ts[1..], a');
      StopFromShortest(ts[1..], a');
      ConcatStep(ts, k' + 1);
      forall j | 1 <= j < k' + 1 ensures !Contains(a + Concat(ts[..j]), Sentinel) {
        ConcatStep(ts, j);
        if j > 1 {
          assert a + Concat(ts[..j]) == a' + Concat(ts[1..][..j - 1]);
        }
      }
      assert StopFrom(ts, a) == a + Concat(ts[..k' + 1]);
    } else if |ts| == 1 {
      assert ts[1..] == [];
    }
  }

  /** When no run of whole chunks short of all of them holds the sentinel,
      everything is kept. */
  lemma {:induction false} StopFromWhole(ts: seq<string>, a: string)
    requires forall k :: 1 <= k < |ts| ==> !Contains(a + Concat(ts[..k]), Sentinel)
    ensures StopFrom(ts, a) == a + Concat(ts)
    decreases |ts|
  {
    if ts != [] {
      var a' := a + ts[0];
      if |ts| == 1 {
        assert ts[1..] == [];
      } else {
        ConcatStep(ts, 1);
        assert ts[1..][..0] == [];
        assert a + Concat(ts[..1]) == a';
        assert !Contains(a', Sentinel);
        forall k | 1 <= k < |ts| - 1 ensures !Contains(a' + Concat(ts[1..][..k]), Sentinel) {
          ConcatStep(ts, k + 1);
          assert a' + Concat(ts[1..][..k]) == a + Concat(ts[..k + 1]);
        }
        StopFromWhole(ts[1..], a');
      }
    }
  }

  /** With nothing but positive reads, the reader keeps adding chunks until
      the accumulation holds the sentinel, or the reads run out. */
  lemma {:induction false} ReassemblePositive(rs: seq<ReadChunk>, acc: Option<string>, e: nat)
    requires rs != [] && forall i :: 0 <= i < |rs| ==> rs[i].len > 0
    ensures Reassemble(rs, acc, e) == Some(StopFrom(Texts(rs), AccText(acc)))
    decreases |rs|
  {
    var a' := AccText(acc) + ChunkText(rs[0]);
    if !Contains(a', Sentinel) && |rs| > 1 {
      ReassemblePositive(rs[1..], Some(a'), e);
    }
  }

  /** Without the sentinel anywhere, and with no negative read: the fifth
      zero-byte read of the call discards everything, however many positive
      reads came between (the counter is never reset); short of that, the
      reads run out and the accumulation so far is returned. */
  lemma {:induction false} ZeroReadsAccumulate(rs: seq<ReadChunk>, acc: Option<string>, e: nat)
    requires forall i :: 0 <= i < |rs| ==> rs[i].len >= 0 && (rs[i].len == 0 ==> rs[i].bytes == [])
    requires e < ZeroReadLimit
    requires !Contains(AccText(acc) + Concat(Texts(rs)), Sentinel)
    ensures e + ZeroCount(rs) >= ZeroReadLimit ==> Reassemble(rs, acc, e) == None
    ensures e + ZeroCount(rs) < ZeroReadLimit ==>
      Reassemble(rs, acc, e) == if rs == [] then acc else Some(AccText(acc) + Concat(Texts(rs)))
    decreases |rs|
  {
    if rs != [] {
      var rd := rs[0];
      var e' := if rd.len == 0 then e + 1 else e;
      var a' := AccText(acc) + ChunkText(rd);
      var rest := Concat(Texts(rs[1..]));
      TextsHead(acc, rs);
      if !(rd.len == 0 && e' >= ZeroReadLimit) {
        NoSentinelInHead(a', rest);
        ZeroReadsAccumulate(rs[1..], Some(a'), e');
        if |rs| == 1 {
          assert rest == [];
          assert a' + rest == a';
        }
      }
    }
  }

  /** The accumulation of a sequence of reads is its first chunk followed by
      the rest. */
  lemma TextsHead(acc: Option<string>, rs: seq<ReadChunk>)
    requires rs != []
    ensures AccText(acc) + Concat(Texts(rs))
      == (AccText(acc) + ChunkText(rs[0])) + Concat(Texts(rs[1..]))
  {
    assert Texts(rs) == [ChunkText(rs[0])] + Texts(rs[1..]);
    assert Concat(Texts(rs)) == ChunkText(rs[0]) + Concat(Texts(rs[1..]));
  }

  /** A text whose extension lacks the sentinel lacks it too. */
  lemma NoSentinelInHead(a: string, rest: string)
    requires !Contains(a + rest, Sentinel)
    ensures !Contains(a, Sentinel)
  {
    if Contains(a, Sentinel) {
      assert (a + rest)[..|a|] == a;
      ContainsInPrefix(a + rest, |a|, Sentinel);
    }
  }

  /** A negative read, reached before the sentinel and before the fifth
      zero-byte read, discards the accumulation. */
  lemma {:induction false} NegativeReadDiscards(rs: seq<ReadChunk>, k: nat, acc: Option<string>, e: nat)
    requires k < |rs| && rs[k].len < 0
    requires forall i :: 0 <= i < k ==> rs[i].len >= 0
    requires e + ZeroCount(rs[..k]) < ZeroReadLimit
    requires !Contains(AccText(acc) + Concat(Texts(rs[..k])), Sentinel)
    ensures Reassemble(rs, acc, e) == None
    decreases k
  {
    if k > 0 {
      var rd := rs[0];
      var e' := if rd.len == 0 then e + 1 else e;
      var a' := AccText(acc) + ChunkText(rd);
      assert rs[..k][1..] == rs[1..][..k - 1];
      TextsHead(acc, rs[..k]);
      NoSentinelInHead(a', Concat(Texts(rs[1..][..k - 1])));
      NegativeReadDiscards(rs[1..], k - 1, Some(a'), e');
    }
  }

  // ---------------------------------------------------------------------
  // The round trip with the server's sender

  /** The reads a receiver sees when each read returns exactly one piece
      that the sender wrote. */
  function AsReads(fs: seq<seq<char>>): (rs: seq<ReadChunk>)
    ensures |rs| == |fs|
  {
    if fs == [] then [] else [ReadChunk(|fs[0]|, fs[0])] + AsReads(fs[1..])
  }

  lemma {:induction false} ChunksNoNul(s: string)
    requires NoNul(s)
    ensures forall i :: 0 <= i < |Chunks(s)| ==> NoNul(Chunks(s)[i])
    decreases |s|
  {
    if |s| > PieceCapacity {
      assert forall c :: c in s[..PieceCapacity] ==> c in s;
      assert forall c :: c in s[PieceCapacity..] ==> c in s;
      ChunksNoNul(s[PieceCapacity..]);
      assert Chunks(s)[1..] == Chunks(s[PieceCapacity..]);
    }
  }

  lemma {:induction false} AsReadsAt(fs: seq<seq<char>>)
    ensures forall i :: 0 <= i < |fs| ==> AsReads(fs)[i] == ReadChunk(|fs[i]|, fs[i])
  {
    if fs != [] {
      AsReadsAt(fs[1..]);
    }
  }

  lemma {:induction false} TextsAt(rs: seq<ReadChunk>)
    ensures forall i :: 0 <= i < |rs| ==> Texts(rs)[i] == ChunkText(rs[i])
  {
    if rs != [] {
      TextsAt(rs[1..]);
    }
  }

  /** One frame read back by itself: a valid positive read that yields its
      chunk again. */
  lemma FrameRead(c: string)
    requires |c| <= PieceCapacity && NoNul(c)
    ensures var rd := ReadChunk(|c + [Nul]|, c + [Nul]);
      ValidRead(rd) && rd.len > 0 && ChunkText(rd) == c
  {
    UpToNulStops(c, []);
    UpToNulWhole(c);
    assert c + [Nul] + [] == c + [Nul];
  }

  /** Frames read back one per read are valid positive reads, and each
      yields its chunk again. */
  lemma FramedReads(cs: seq<string>)
    requires forall i :: 0 <= i < |cs| ==> |cs[i]| <= PieceCapacity && NoNul(cs[i])
    ensures ValidReads(AsReads(Framed(cs)))
    ensures forall i :: 0 <= i < |cs| ==> AsReads(Framed(cs))[i].len > 0
    ensures Texts(AsReads(Framed(cs))) == cs
  {
    var rs := AsReads(Framed(cs));
    FramedAt(cs);
    AsReadsAt(Framed(cs));
    TextsAt(rs);
    forall i | 0 <= i < |cs|
      ensures ValidRead(rs[i]) && rs[i].len > 0 && Texts(rs)[i] == cs[i]
    {
      FrameRead(cs[i]);
    }
  }

  /** Each client read returns exactly one of the frames of `s`: the client
      keeps adding chunks until the sentinel shows up. */
  lemma ReceiveFramed(s: string)
    requires NoNul(s)
    ensures ClientRead(AsReads(Framed(Chunks(s)))) == Some(StopFrom(Chunks(s), ""))
  {
    var cs := Chunks(s);
    ChunksNoNul(s);
    ChunksCover(s);
    FramedReads(cs);
    ReassemblePositive(AsReads(Framed(cs)), None, 0);
  }

  /** The server sends `s` and every write completes; each client read
      returns exactly one of the pieces. Then the client returns the shortest
      prefix of `s` that ends on a piece boundary and holds the sentinel, or
      all of `s` when none does. */
  lemma SendReceiveRoundTrip(s: string)
    requires NoNul(s)
    ensures Send(s, Lengths(Framed(Chunks(s)))) == Sent(Success, Framed(Chunks(s)))
    ensures ClientRead(AsReads(Framed(Chunks(s)))) == Some(StopFrom(Chunks(s), ""))
    ensures var k := StopCount(Chunks(s), "");
      StopFrom(Chunks(s), "") == Concat(Chunks(s)[..k])
      && (forall j :: 1 <= j < k ==> !Contains(Concat(Chunks(s)[..j]), Sentinel))
      && (Contains(StopFrom(Chunks(s), ""), Sentinel) || k == |Chunks(s)|)
  {
    var cs := Chunks(s);
    SendCompleteRoundTrip(s, []);
    assert Lengths(Framed(cs)) + [] == Lengths(Framed(cs));
    ReceiveFramed(s);
    StopFromShortest(cs, "");
    assert forall t: string :: "" + t == t;
  }

  /** The joined chunks before the k-th are the input's first k * PieceCapacity
      characters. */
  lemma {:induction false} ChunksPrefix(s: string, k: nat)
    requires k < |Chunks(s)|
    ensures k * PieceCapacity < |s| || k == 0
    ensures k * PieceCapacity <= |s| && Concat(Chunks(s)[..k]) == s[..k * PieceCapacity]
    decreases |s|
  {
    if k > 0 {
      var t := s[PieceCapacity..];
      assert Chunks(s)[1..] == Chunks(t);
      ChunksPrefix(t, k - 1);
      ConcatStep(Chunks(s), k);
      assert s[..k * PieceCapacity] == s[..PieceCapacity] + t[..(k - 1) * PieceCapacity];
    }
  }

  /** A message in which the sentinel does not occur before its last
      character comes back whole. */
  lemma WholeMessageRoundTrip(m: string)
    requires NoNul(m)
    requires |m| == 0 || !Contains(m[..|m| - 1], Sentinel)
    ensures ClientRead(AsReads(Framed(Chunks(m)))) == Some(m)
  {
    ReceiveFramed(m);
    KeptWhole(m);
  }

  /** No run of whole chunks short of all of them holds the sentinel, so
      the whole message is kept. */
  lemma KeptWhole(m: string)
    requires |m| == 0 || !Contains(m[..|m| - 1], Sentinel)
    ensures StopFrom(Chunks(m), "") == m
  {
    var cs := Chunks(m);
    NoEarlySentinel(m);
    StopFromWhole(cs, "");
    ChunksCover(m);
    assert "" + Concat(cs) == m;
  }

  lemma NoEarlySentinel(m: string)
    requires |m| == 0 || !Contains(m[..|m| - 1], Sentinel)
    ensures forall k :: 1 <= k < |Chunks(m)| ==> !Contains("" + Concat(Chunks(m)[..k]), Sentinel)
  {
    var cs := Chunks(m);
    forall k | 1 <= k < |cs| ensures !Contains("" + Concat(cs[..k]), Sentinel) {
      ChunksPrefix(m, k);
      var n := k * PieceCapacity;
      assert "" + Concat(cs[..k]) == m[..n];
      assert m[..|m| - 1][..n] == m[..n];
      if Contains(m[..n], Sentinel) {
        ContainsInPrefix(m[..|m| - 1], n, Sentinel);
      }
    }
  }

  /** Every message that fits one piece comes back whole, sentinel or not. */
  lemma ShortMessageRoundTrip(m: string)
    requires NoNul(m) && |m| <= PieceCapacity
    ensures ClientRead(AsReads(Framed(Chunks(m)))) == Some(m)
  {
    ReceiveFramed(m);
    KeptShort(m);
  }

  /** A message that fits one piece is one chunk, kept whole. */
  lemma KeptShort(m: string)
    requires |m| <= PieceCapacity
    ensures StopFrom(Chunks(m), "") == m
  {
    assert Chunks(m) == [m];
    assert [m][1..] == [];
    assert "" + m == m;
  }

  // ---------------------------------------------------------------------
  // client_write_socket and main

  /** `client_write_socket`: one `write` of the request and its NUL.
      `writeRet` is what `write` returns; only -1 counts as failure, so a
      partial write reports success. */
  method ClientWriteSocket(request: string, writeRet: int) returns (status: int, sent: seq<char>)
    requires NoNul(request)
    ensures sent == request + [Nul] && |sent| == |request| + 1
    ensures status == -1 <==> writeRet == -1
    ensures status != -1 ==> status == 0
  {
    sent := request + [Nul];
    if writeRet == -1 {
      return -1, sent;
    }
    return 0, sent;
  }

  /** The server's `read_socket` gets the request back from the bytes
      `client_write_socket` sends, when its one read returns them all. */
  lemma RequestRoundTrip(request: string)
    requires NoNul(request) && |request| < MaxSize
    ensures ReceivedRequest(|request| + 1, request + [Nul]) == Request(request)
  {
    var sent := request + [Nul];
    assert sent[..|sent| - 1] == request;
    UpToNulWhole(request);
  }

  /** The client writes the request and the server reads it: when the one
      `write` sends every byte and the server's one `read` returns them, the
      server holds the request the client was given. `junk` is what `malloc`
      left in the server's buffer. What the server reads after a partial
      write is not modelled (None). */
  method RequestExchange(request: string, writeRet: int, junk: seq<char>)
    returns (status: int, received: Option<Received>)
    requires NoNul(request) && |request| < MaxSize && |junk| == MaxSize
    ensures status == -1 <==> writeRet == -1
    ensures received.Some? <==> writeRet == |request| + 1
    ensures received.Some? ==> status == 0 && received.value == Request(request)
  {
    var sent;
    status, sent := ClientWriteSocket(request, writeRet);
    if writeRet != |sent| {
      return status, None;
    }
    var r := ReadSocket(|sent|, sent, junk);
    RequestRoundTrip(request);
    return status, Some(r);
  }

  /** `main` prints its usage text and stops when the request argument is
      missing or contains "-h" anywhere. */
  predicate ShowsUsage(args: seq<string>)
  {
    |args| < 2 || Contains(args[1], "-h")
  }

  /** The outcome of one run of the client. */
  datatype ClientRun = ClientRun(exit: Outcome, request: Option<seq<char>>, received: Option<string>)

  /** `main`: the usage check, the configuration lookups, `connect`, the
      request write and the response read. `port` is the number `atoi` reads
      from the port value and `connected` whether `client_create_socket`
      succeeds; `writeRet` and `rs` are what the socket calls return. */
  method ClientMain(args: seq<string>, config: Option<seq<string>>, port: int, connected: bool,
                    writeRet: int, rs: seq<ReadChunk>)
    returns (run: ClientRun)
    requires forall i :: 0 <= i < |args| ==> NoNul(args[i])
    requires config.Some? ==> ValidConfig(config.value)
    requires ValidReads(rs)
    ensures ShowsUsage(args) ==> run == ClientRun(Returned(-1), None, None)
    ensures run.exit == Undefined <==>
      !ShowsUsage(args) && ConfigValue(config, "ip_address").Some? && ConfigValue(config, "port").None?
    ensures run.exit != Undefined ==> run.exit == Returned(-1)
    ensures run.request.Some? <==>
      !ShowsUsage(args) && ConfigValue(config, "ip_address").Some? && ConfigValue(config, "port").Some?
      && port != 0 && connected
    ensures run.request.Some? ==> run.request.value == args[1] + [Nul]
    ensures run.received.Some? ==> run.request.Some? && writeRet != -1 && run.received == ClientRead(rs)
    ensures run.request.Some? && writeRet != -1 ==> run.received == ClientRead(rs)
  {
    if ShowsUsage(args) {
      return ClientRun(Returned(-1), None, None);
    }
    var ip := GetConfigValue(config, "ip_address");
    if ip.None? {
      return ClientRun(Returned(-1), None, None);
    }
    var portText := GetConfigValue(config, "port");
    if portText.None? {
      // atoi(NULL)
      return ClientRun(Undefined, None, None);
    }
    if port == 0 || !connected {
      return ClientRun(Returned(-1), None, None);
    }
    var status, sent := ClientWriteSocket(args[1], writeRet);
    if status == -1 {
      return ClientRun(Returned(-1), Some(sent), None);
    }
    var received := ClientReadSocket(rs);
    // The exchange is complete; main still returns -1.
    return ClientRun(Returned(-1), Some(sent), received);
  }
}
