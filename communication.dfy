/** The server side of the wire (communication.c): the chunked sender
    `write_socket`, the single-read request reader `read_socket`, and the
    configuration lookup `get_config_value`.

    The `write` and `read` system calls are oracles: the caller supplies the
    values they return. The 600-second deadline of `write_socket` is the
    length of its oracle: one entry per loop iteration, and the loop gives up
    when the entries run out. */
module Communication {
  import opened Assist
  import opened CStrings

  /** Characters one piece carries at most: a buffer less its NUL. */
  const PieceCapacity: nat := MaxSize - 1

  function Min(a: int, b: int): int
  {
    if a <= b then a else b
  }

  /** The number of bytes `write_socket` asks `write` to send for the piece
      that starts at offset c: a whole buffer while at least PieceCapacity
      characters remain, else the remaining characters and their NUL. */
  function PieceLength(s: string, c: nat): (n: nat)
    requires c <= |s|
    ensures 1 <= n <= MaxSize
  {
    if |s| - c >= PieceCapacity then MaxSize else |s| - c + 1
  }

  /** `tmpBuf` after `strncpy(tmpBuf, &s[c], MAX_SIZE - 1)`: up to
      PieceCapacity characters of `s` from offset c, NUL padding after them,
      and the last byte, never written, still NUL. */
  function PieceBuffer(s: string, c: nat): (b: seq<char>)
    requires c <= |s|
    ensures |b| == MaxSize && b[MaxSize - 1] == Nul
  {
    seq(MaxSize, j requires 0 <= j < MaxSize =>
      if j < PieceCapacity && c + j < |s| then s[c + j] else Nul)
  }

  /** The bytes one `write` hands to the socket for the piece at offset c. */
  function Piece(s: string, c: nat): (p: seq<char>)
    requires c <= |s|
    ensures |p| == PieceLength(s, c)
  {
    s[c..Min(c + PieceCapacity, |s|)] + [Nul]
  }

  /** What is written is the head of the buffer: at most PieceCapacity
      characters of the input, then a NUL. */
  lemma PieceFromBuffer(s: string, c: nat)
    requires c <= |s|
    ensures PieceBuffer(s, c)[..PieceLength(s, c)] == Piece(s, c)
    ensures |Piece(s, c)| <= MaxSize && Piece(s, c)[|Piece(s, c)| - 1] == Nul
  {
    var b, p := PieceBuffer(s, c), Piece(s, c);
    assert forall j :: 0 <= j < |p| ==> b[j] == p[j];
  }

  /** What `write_socket` did: the pieces it handed to `write`, in order, and
      either the value it returned or, when its progress counter went below
      zero, the read before the start of the input that `strncpy` would make
      next. */
  datatype SendResult =
    | Sent(status: int, pieces: seq<seq<char>>)
    | Underflow(pieces: seq<seq<char>>)
  {
    /** The same result with `ps` written before. */
    function After(ps: seq<seq<char>>): (r: SendResult)
      ensures r.pieces == ps + pieces
      ensures r.Sent? == Sent? && (Sent? ==> r.status == status)
    {
      match this
      case Sent(st, qs) => Sent(st, ps + qs)
      case Underflow(qs) => Underflow(ps + qs)
    }
  }

  /** The rest of `write_socket`'s loop, from progress counter c, with
      `writes` the values the remaining calls to `write` return. */
  function SendFrom(s: string, c: nat, writes: seq<int>): SendResult
    requires c <= |s|
    decreases |writes|
  {
    if writes == [] then Sent(-1, [])
    else
      var p := Piece(s, c);
      var r := writes[0];
      if r == -1 then Sent(WriteFail1, [p])
      else if r < 0 then Sent(WriteFail2, [p])
      else
        var c' := c + r - 1;
        if |s| - c' <= 0 then Sent(Success, [p])
        else if c' < 0 then Underflow([p])
        else SendFrom(s, c', writes[1..]).After([p])
  }

  /** `write_socket(s, sockfd)` when its successive calls to `write` return `writes`. */
  function Send(s: string, writes: seq<int>): SendResult
  {
    SendFrom(s, 0, writes)
  }

  /** One iteration of the loop. */
  lemma SendFromStep(s: string, c: nat, writes: seq<int>)
    requires c <= |s| && writes != []
    ensures var p, r := Piece(s, c), writes[0];
      SendFrom(s, c, writes) ==
        if r == -1 then Sent(WriteFail1, [p])
        else if r < 0 then Sent(WriteFail2, [p])
        else if |s| - (c + r - 1) <= 0 then Sent(Success, [p])
        else if c + r - 1 < 0 then Underflow([p])
        else SendFrom(s, c + r - 1, writes[1..]).After([p])
  {
  }

  lemma AfterAfter(r: SendResult, ps: seq<seq<char>>, qs: seq<seq<char>>)
    ensures r.After(ps).After(qs) == r.After(qs + ps)
  {
    assert qs + (ps + r.pieces) == (qs + ps) + r.pieces;
  }

  /** `strncpy(buf, &s[c], MAX_SIZE - 1)` into the piece buffer. */
  method FillPiece(buf: array<char>, s: string, c: nat)
    requires buf.Length == MaxSize && buf[MaxSize - 1] == Nul && c <= |s| && NoNul(s)
    modifies buf
    ensures buf[..] == PieceBuffer(s, c)
  {
    var j := 0;
    while j < PieceCapacity
      invariant 0 <= j <= PieceCapacity
      invariant buf[MaxSize - 1] == Nul
      invariant forall k :: 0 <= k < j ==> buf[k] == PieceBuffer(s, c)[k]
    {
      buf[j] := if c + j < |s| then s[c + j] else Nul;
      j := j + 1;
    }
  }

  /** The chunked sender. Each iteration writes the buffer's piece, stops on
      an error, adds the write's return value less one to its progress
      counter, stops once the counter reaches the input's length, and
      otherwise refills the buffer from the counter onwards. */
  method WriteSocket(s: string, writes: seq<int>) returns (result: SendResult)
    requires NoNul(s)
    ensures result == Send(s, writes)
  {
    var total := |s|;
    var buf := new char[MaxSize](_ => Nul);
    var sendLen: int;
    FillPiece(buf, s, 0);
    if total >= MaxSize - 1 {
      sendLen := MaxSize;
    } else {
      sendLen := total + 1;
    }
    var counter: int := 0;
    var pieces: seq<seq<char>> := [];
    var i := 0;
    while i < |writes|
      invariant 0 <= i <= |writes|
      invariant 0 <= counter <= total
      invariant buf.Length == MaxSize && buf[..] == PieceBuffer(s, counter)
      invariant sendLen == PieceLength(s, counter)
      invariant SendFrom(s, counter, writes[i..]).After(pieces) == Send(s, writes)
    {
      PieceFromBuffer(s, counter);
      var piece := buf[..sendLen];
      assert piece == Piece(s, counter) by {
        assert buf[..sendLen] == buf[..][..sendLen];
      }
      var r := writes[i];
      ghost var before, c0 := pieces, counter;
      SendFromStep(s, counter, writes[i..]);
      assert writes[i..][1..] == writes[i + 1..];
      pieces := pieces + [piece];
      if r == -1 {
        return Sent(WriteFail1, pieces);
      } else if r < 0 {
        return Sent(WriteFail2, pieces);
      }
      counter := counter + r - 1;
      if total - counter <= 0 {
        return Sent(Success, pieces);
      }
      if counter < 0 {
        return Underflow(pieces);
      }
      assert SendFrom(s, c0, writes[i..]) == SendFrom(s, counter, writes[i + 1..]).After([piece]);
      assert SendFrom(s, counter, writes[i + 1..]).After(pieces) == Send(s, writes) by {
        AfterAfter(SendFrom(s, counter, writes[i + 1..]), [piece], before);
      }
      FillPiece(buf, s, counter);
      if total - counter >= MaxSize - 1 {
        sendLen := MaxSize;
      } else {
        sendLen := total - counter + 1;
      }
      i := i + 1;
    }
    return Sent(-1, pieces);
  }

  // ---------------------------------------------------------------------
  // What the sender promises

  /** The progress counter after the first j iterations, when the loop starts
      from counter 0: each iteration adds the write's return value less one. */
  function Offset(writes: seq<int>, j: nat): int
    requires j <= |writes|
  {
    if j == 0 then 0 else (writes[0] - 1) + Offset(writes[1..], j - 1)
  }

  /** The j-th piece starts where the counter stood after j iterations, and
      there are never more pieces than writes. */
  lemma SendFromPieces(s: string, c: nat, writes: seq<int>)
    requires c <= |s|
    ensures |SendFrom(s, c, writes).pieces| <= |writes|
    ensures writes != [] ==> |SendFrom(s, c, writes).pieces| >= 1
    ensures forall j :: 0 <= j < |SendFrom(s, c, writes).pieces| ==>
      0 <= c + Offset(writes, j) <= |s| &&
      SendFrom(s, c, writes).pieces[j] == Piece(s, c + Offset(writes, j))
  {
    SendFromCount(s, c, writes);
    forall j | 0 <= j < |SendFrom(s, c, writes).pieces|
      ensures 0 <= c + Offset(writes, j) <= |s|
      ensures SendFrom(s, c, writes).pieces[j] == Piece(s, c + Offset(writes, j))
    {
      SendFromPieceAt(s, c, writes, j);
    }
  }

  /** One piece per write used, at least one when any write happens. */
  lemma {:induction false} SendFromCount(s: string, c: nat, writes: seq<int>)
    requires c <= |s|
    ensures |SendFrom(s, c, writes).pieces| <= |writes|
    ensures writes != [] ==> |SendFrom(s, c, writes).pieces| >= 1
    decreases |writes|
  {
    if writes != [] {
      SendFromStep(s, c, writes);
      var r := writes[0];
      if r >= 0 && |s| - (c + r - 1) > 0 && c + r - 1 >= 0 {
        SendFromCount(s, c + r - 1, writes[1..]);
      }
    }
  }

  /** The piece written by iteration j. */
  lemma {:induction false} SendFromPieceAt(s: string, c: nat, writes: seq<int>, j: nat)
    requires c <= |s| && j < |SendFrom(s, c, writes).pieces| && j < |writes|
    ensures 0 <= c + Offset(writes, j) <= |s|
    ensures SendFrom(s, c, writes).pieces[j] == Piece(s, c + Offset(writes, j))
    decreases j
  {
    if j == 0 {
      SendFromHead(s, c, writes);
    } else {
      var c' := SendFromShift(s, c, writes, j);
      SendFromPieceAt(s, c', writes[1..], j - 1);
      OffsetNext(writes, j);
    }
  }

  /** The first piece is the one at the counter. */
  lemma SendFromHead(s: string, c: nat, writes: seq<int>)
    requires c <= |s| && writes != []
    ensures |SendFrom(s, c, writes).pieces| >= 1 && SendFrom(s, c, writes).pieces[0] == Piece(s, c + Offset(writes, 0))
  {
    SendFromStep(s, c, writes);
    assert Offset(writes, 0) == 0;
  }

  lemma OffsetNext(writes: seq<int>, j: nat)
    requires 0 < j <= |writes|
    ensures Offset(writes, j) == (writes[0] - 1) + Offset(writes[1..], j - 1)
  {
  }

  /** Piece j > 0 is piece j - 1 of the loop that goes on after the first
      write, from counter c'. */
  lemma SendFromShift(s: string, c: nat, writes: seq<int>, j: nat) returns (c': nat)
    requires c <= |s| && 0 < j < |SendFrom(s, c, writes).pieces| && j < |writes|
    ensures c' == c + writes[0] - 1 && c' < |s|
    ensures j - 1 < |SendFrom(s, c', writes[1..]).pieces| && j - 1 < |writes[1..]|
    ensures SendFrom(s, c, writes).pieces[j] == SendFrom(s, c', writes[1..]).pieces[j - 1]
  {
    SendFromStep(s, c, writes);
    var p, r := Piece(s, c), writes[0];
    assert r >= 0 && |s| - (c + r - 1) > 0 && c + r - 1 >= 0;
    c' := c + r - 1;
    var rest := SendFrom(s, c', writes[1..]);
    assert SendFrom(s, c, writes) == rest.After([p]);
    assert SendFrom(s, c, writes).pieces[j] == rest.pieces[j - 1];
  }

  /** The first piece is the one at the counter; a second one means the
      first write left the counter inside the input and the loop went on. */
  lemma SendFromFirst(s: string, c: nat, writes: seq<int>)
    requires c <= |s| && |SendFrom(s, c, writes).pieces| >= 1
    ensures writes != [] && SendFrom(s, c, writes).pieces[0] == Piece(s, c)
    ensures |SendFrom(s, c, writes).pieces| >= 2 ==>
      var c' := c + writes[0] - 1;
      writes[0] >= 0 && 0 <= c' < |s| &&
      SendFrom(s, c, writes).pieces == [Piece(s, c)] + SendFrom(s, c', writes[1..]).pieces
  {
  }

  /** Iteration j wrote without error and left the counter inside the input. */
  predicate WentOn(s: string, c: nat, writes: seq<int>, j: nat)
    requires j < |writes|
  {
    writes[j] >= 0 && 0 <= c + Offset(writes, j + 1) < |s|
  }

  /** Every iteration but the last wrote without error and left the counter
      inside the input: no write follows an error or completion. */
  lemma SendFromContinues(s: string, c: nat, writes: seq<int>)
    requires c <= |s|
    ensures |SendFrom(s, c, writes).pieces| <= |writes|
    ensures forall j: nat :: j < |SendFrom(s, c, writes).pieces| - 1 ==> WentOn(s, c, writes, j)
  {
    SendFromCount(s, c, writes);
    forall j: nat | j < |SendFrom(s, c, writes).pieces| - 1 ensures WentOn(s, c, writes, j) {
      SendFromContinuesAt(s, c, writes, j);
    }
  }

  /** Iteration j, when another follows it, wrote without error and left the
      counter inside the input. */
  lemma {:induction false} SendFromContinuesAt(s: string, c: nat, writes: seq<int>, j: nat)
    requires c <= |s| && j + 1 < |SendFrom(s, c, writes).pieces| && j + 1 < |writes|
    ensures writes[j] >= 0 && 0 <= c + Offset(writes, j + 1) < |s|
    decreases j
  {
    SendFromFirst(s, c, writes);
    var c' := c + writes[0] - 1;
    assert Offset(writes, 1) == writes[0] - 1 by {
      assert Offset(writes[1..], 0) == 0;
    }
    if j > 0 {
      SendFromCount(s, c', writes[1..]);
      SendFromContinuesAt(s, c', writes[1..], j - 1);
      assert writes[j] == writes[1..][j - 1];
      assert c + Offset(writes, j + 1) == c' + Offset(writes[1..], j);
    }
  }

  /** Whether the loop goes on after a write that returned w with the
      counter at c: no error, and the new counter still inside the input. */
  predicate GoesOn(s: string, c: int, w: int)
  {
    w >= 0 && |s| - (c + w - 1) > 0 && c + w - 1 >= 0
  }

  /** The status a loop has once its last write returned w with the counter
      at c; None for the undefined negative counter. */
  function LastStatus(s: string, c: int, w: int): Option<int>
  {
    if w == -1 then Some(WriteFail1)
    else if w < 0 then Some(WriteFail2)
    else if |s| - (c + w - 1) <= 0 then Some(Success)
    else if c + w - 1 < 0 then None
    else Some(-1)
  }

  /** The status of a result; None when it is undefined. */
  function Status(r: SendResult): Option<int>
  {
    if r.Sent? then Some(r.status) else None
  }

  /** The loop's status is decided by its last write alone, at the counter
      where that write was made; a last write after which the loop would
      go on was the last one available. */
  lemma SendFromLast(s: string, c: nat, writes: seq<int>)
    requires c <= |s| && writes != []
    ensures var r := SendFrom(s, c, writes); var k := |r.pieces|;
      1 <= k <= |writes| && 0 <= c + Offset(writes, k - 1) <= |s| &&
      Status(r) == LastStatus(s, c + Offset(writes, k - 1), writes[k - 1]) &&
      (GoesOn(s, c + Offset(writes, k - 1), writes[k - 1]) ==> k == |writes|)
  {
    SendFromLastCounter(s, c, writes);
    SendFromLastStatus(s, c, writes);
  }

  /** The last write was made with the counter inside the input, and a last
      write after which the loop would go on was the last one available. */
  lemma {:induction false} SendFromLastCounter(s: string, c: nat, writes: seq<int>)
    requires c <= |s| && writes != []
    ensures var k := |SendFrom(s, c, writes).pieces|;
      1 <= k <= |writes| && 0 <= c + Offset(writes, k - 1) <= |s| &&
      (GoesOn(s, c + Offset(writes, k - 1), writes[k - 1]) ==> k == |writes|)
    decreases |writes|
  {
    var w := writes[0];
    assert Offset(writes, 0) == 0;
    if !GoesOn(s, c, w) || |writes| == 1 {
      SendFromOneStep(s, c, writes);
    } else {
      var c', w' := c + w - 1, writes[1..];
      var rest := SendFromOn(s, c, writes);
      SendFromLastCounter(s, c', w');
      var k, k' := |SendFrom(s, c, writes).pieces|, |rest.pieces|;
      assert writes[k - 1] == w'[k' - 1];
      OffsetNext(writes, k');
      assert c + Offset(writes, k - 1) == c' + Offset(w', k' - 1);
    }
  }

  /** The status is the one the last write decides. */
  lemma {:induction false} SendFromLastStatus(s: string, c: nat, writes: seq<int>)
    requires c <= |s| && writes != []
    ensures var r := SendFrom(s, c, writes); var k := |r.pieces|;
      1 <= k <= |writes| &&
      Status(r) == LastStatus(s, c + Offset(writes, k - 1), writes[k - 1])
    decreases |writes|
  {
    var w := writes[0];
    assert Offset(writes, 0) == 0;
    if !GoesOn(s, c, w) || |writes| == 1 {
      SendFromOneStep(s, c, writes);
    } else {
      var c', w' := c + w - 1, writes[1..];
      var rest := SendFromOn(s, c, writes);
      SendFromLastStatus(s, c', w');
      var k, k' := |SendFrom(s, c, writes).pieces|, |rest.pieces|;
      assert writes[k - 1] == w'[k' - 1];
      OffsetNext(writes, k');
      assert c + Offset(writes, k - 1) == c' + Offset(w', k' - 1);
    }
  }

  /** A write after which the loop stops, or the last write available,
      writes the one piece at the counter and decides the status. */
  lemma SendFromOneStep(s: string, c: nat, writes: seq<int>)
    requires c <= |s| && writes != [] && (!GoesOn(s, c, writes[0]) || |writes| == 1)
    ensures |SendFrom(s, c, writes).pieces| == 1
    ensures Status(SendFrom(s, c, writes)) == LastStatus(s, c, writes[0])
  {
    SendFromStep(s, c, writes);
    if GoesOn(s, c, writes[0]) {
      assert writes[1..] == [];
      assert SendFrom(s, c + writes[0] - 1, writes[1..]) == Sent(-1, []);
    }
  }

  /** A write after which the loop goes on: the result is that of the rest
      of the loop, after the piece at the counter. */
  lemma SendFromOn(s: string, c: nat, writes: seq<int>) returns (rest: SendResult)
    requires c <= |s| && writes != [] && GoesOn(s, c, writes[0])
    ensures 0 <= c + writes[0] - 1 < |s|
    ensures rest == SendFrom(s, c + writes[0] - 1, writes[1..])
    ensures |SendFrom(s, c, writes).pieces| == 1 + |rest.pieces|
    ensures Status(SendFrom(s, c, writes)) == Status(rest)
  {
    SendFromStep(s, c, writes);
    rest := SendFrom(s, c + writes[0] - 1, writes[1..]);
    assert SendFrom(s, c, writes) == rest.After([Piece(s, c)]);
  }


  /** The counter after k writes is the one before the last of them plus
      what that write sent, less one. */
  lemma {:induction false} OffsetLast(writes: seq<int>, k: nat)
    requires 1 <= k <= |writes|
    ensures Offset(writes, k) == Offset(writes, k - 1) + writes[k - 1] - 1
    decreases k
  {
    if k > 1 {
      OffsetLast(writes[1..], k - 1);
      assert writes[1..][k - 2] == writes[k - 1];
    }
  }

  /** How the loop ended, read off the last write it made: -1 gives
      WRITE_FAIL1, any other negative value WRITE_FAIL2, a non-negative
      value that brings the counter to the input's length SUCCESS, one that
      brings it below zero a read before the input; and when every write was
      non-negative and the counter never reached the length, the deadline
      passed and the initial -1 is returned. */
  lemma SendFromEnding(s: string, c: nat, writes: seq<int>)
    requires c <= |s|
    ensures var r := SendFrom(s, c, writes); var k := |r.pieces|;
      k <= |writes| &&
      (r == Sent(WriteFail1, r.pieces) <==> k >= 1 && writes[k - 1] == -1) &&
      (r == Sent(WriteFail2, r.pieces) <==> k >= 1 && writes[k - 1] < -1) &&
      (r == Sent(Success, r.pieces) <==>
         k >= 1 && writes[k - 1] >= 0 && |s| - (c + Offset(writes, k)) <= 0) &&
      (r.Underflow? <==> k >= 1 && writes[k - 1] >= 0 && c + Offset(writes, k) < 0) &&
      (r == Sent(-1, r.pieces) <==>
         k == |writes| && (k == 0 || (writes[k - 1] >= 0 && 0 <= c + Offset(writes, k) < |s|))) &&
      (r.Sent? ==> r.status in {Success, WriteFail1, WriteFail2, -1})
  {
    if writes != [] {
      SendFromLast(s, c, writes);
      OffsetLast(writes, |SendFrom(s, c, writes).pieces|);
    }
  }




  /** A write that sends nothing is not an error: the loop goes on, and since
      the counter drops by one, the next piece starts one character before
      the one just written. */
  lemma ZeroWriteRewinds(s: string, c: nat, rest: seq<int>)
    requires 1 <= c < |s|
    ensures SendFrom(s, c, [0] + rest) == SendFrom(s, c - 1, rest).After([Piece(s, c)])
  {
    assert ([0] + rest)[1..] == rest;
  }

  /** A zero-byte write of the first piece, whatever the input, sends the
      counter below zero. */
  lemma ZeroFirstWriteUnderflows(s: string, rest: seq<int>)
    ensures SendFrom(s, 0, [0] + rest) == Underflow([Piece(s, 0)])
  {
  }

  // ---------------------------------------------------------------------
  // The round trip when every write completes

  /** The input cut into the pieces' characters: PieceCapacity characters
      each, the last one shorter; the empty input is one empty chunk. */
  function Chunks(s: string): (cs: seq<string>)
    ensures |cs| >= 1
    decreases |s|
  {
    if |s| <= PieceCapacity then [s] else [s[..PieceCapacity]] + Chunks(s[PieceCapacity..])
  }

  function Concat(cs: seq<string>): string
  {
    if cs == [] then [] else cs[0] + Concat(cs[1..])
  }

  /** Each chunk followed by its NUL: the bytes on the wire. */
  function Framed(cs: seq<string>): (fs: seq<seq<char>>)
    ensures |fs| == |cs|
  {
    if cs == [] then [] else [cs[0] + [Nul]] + Framed(cs[1..])
  }

  /** The byte count of each frame: what every `write` returns when it
      completes. */
  function Lengths(fs: seq<seq<char>>): (ns: seq<int>)
    ensures |ns| == |fs|
  {
    if fs == [] then [] else [|fs[0]|] + Lengths(fs[1..])
  }

  /** Chunks carry the whole input, in order, each within the capacity; all
      are full but the last, none is empty unless the input is, and there are
      max(1, ceil(|s| / PieceCapacity)) of them. */
  lemma {:induction false} ChunksCover(s: string)
    ensures Concat(Chunks(s)) == s
    ensures forall i :: 0 <= i < |Chunks(s)| ==> |Chunks(s)[i]| <= PieceCapacity
    ensures forall i :: 0 <= i < |Chunks(s)| - 1 ==> |Chunks(s)[i]| == PieceCapacity
    ensures s != [] ==> forall i :: 0 <= i < |Chunks(s)| ==> Chunks(s)[i] != []
    ensures |Chunks(s)| == if s == [] then 1 else (|s| + PieceCapacity - 1) / PieceCapacity
    decreases |s|
  {
    if |s| > PieceCapacity {
      var t := s[PieceCapacity..];
      ChunksCover(t);
      assert Chunks(s)[1..] == Chunks(t);
      assert s == s[..PieceCapacity] + t;
    }
  }

  /** When each call to `write` sends exactly the bytes it was asked to send,
      `write_socket` sends the frames of the input's chunks, one write per
      chunk, and returns SUCCESS; later oracle entries are never used. */
  lemma {:induction false} SendFromComplete(s: string, c: nat, extra: seq<int>)
    requires c <= |s|
    ensures SendFrom(s, c, Lengths(Framed(Chunks(s[c..]))) + extra)
      == Sent(Success, Framed(Chunks(s[c..])))
    decreases |s| - c
  {
    var t := s[c..];
    var cs := Chunks(t);
    var w := Lengths(Framed(cs)) + extra;
    if |t| <= PieceCapacity {
      assert cs == [t];
      assert w[0] == |t| + 1;
      assert Piece(s, c) == t + [Nul];
    } else {
      var c' := c + PieceCapacity;
      assert s[c'..] == t[PieceCapacity..];
      assert cs == [t[..PieceCapacity]] + Chunks(s[c'..]);
      assert Framed(cs) == [t[..PieceCapacity] + [Nul]] + Framed(Chunks(s[c'..]));
      assert w[0] == MaxSize;
      assert w[1..] == Lengths(Framed(Chunks(s[c'..]))) + extra;
      assert Piece(s, c) == t[..PieceCapacity] + [Nul];
      SendFromComplete(s, c', extra);
    }
  }

  /** The round trip: removing the NUL from every frame sent and joining
      them gives back the input. */
  lemma SendCompleteRoundTrip(s: string, extra: seq<int>)
    ensures Send(s, Lengths(Framed(Chunks(s))) + extra) == Sent(Success, Framed(Chunks(s)))
    ensures Concat(Chunks(s)) == s
    ensures forall i :: 0 <= i < |Chunks(s)| ==> Framed(Chunks(s))[i] == Chunks(s)[i] + [Nul]
  {
    assert s[0..] == s;
    SendFromComplete(s, 0, extra);
    ChunksCover(s);
    FramedAt(Chunks(s));
  }

  lemma {:induction false} FramedAt(cs: seq<string>)
    ensures forall i :: 0 <= i < |cs| ==> Framed(cs)[i] == cs[i] + [Nul]
  {
    if cs != [] {
      FramedAt(cs[1..]);
    }
  }

  // ---------------------------------------------------------------------
  // read_socket

  /** What `read_socket` hands back: NULL, a request, or nothing defined,
      when `read` returns 0 and the NUL is written before the buffer. */
  datatype Received = ReadFailed | Request(text: string) | ReadUndefined

  /** The request a successful read of `len` bytes yields: the bytes before
      the last one received (the newline the client does not send), up to
      the first NUL among them. */
  function ReceivedRequest(len: int, data: seq<char>): (r: Received)
    requires len == -1 || (0 <= len <= MaxSize && |data| == len)
    ensures r.ReadFailed? <==> len == -1
    ensures r.ReadUndefined? <==> len == 0
    ensures r.Request? ==> NoNul(r.text) && |r.text| < len && r.text == data[..|r.text|]
    ensures r.Request? && NoNul(data[..len - 1]) ==> r.text == data[..len - 1]
  {
    if len == -1 then ReadFailed
    else if len == 0 then ReadUndefined
    else
      if NoNul(data[..len - 1]) then UpToNulWhole(data[..len - 1]); Request(UpToNul(data[..len - 1]))
      else Request(UpToNul(data[..len - 1]))
  }

  /** `read_socket`: one `read` of at most MAX_SIZE bytes; NULL when it
      returns -1; otherwise the last byte received is overwritten with NUL
      and the buffer is handed on as a C string. `len` and `data` are what
      `read` returns and what it stores. */
  method ReadSocket(len: int, data: seq<char>, junk: seq<char>) returns (request: Received)
    requires len == -1 || (0 <= len <= MaxSize && |data| == len)
    requires |junk| == MaxSize
    ensures request == ReceivedRequest(len, data)
  {
    if len == -1 {
      return ReadFailed;
    }
    if len == 0 {
      // request[-1] = '\0'
      return ReadUndefined;
    }
    // The bytes past those received are whatever malloc left there: `junk`.
    var buf := new char[MaxSize](k requires 0 <= k < MaxSize => if k < |data| then data[k] else junk[k]);
    buf[len - 1] := Nul;
    assert buf[..] == data[..len - 1] + [Nul] + buf[len..];
    UpToNulStops(data[..len - 1], buf[len..]);
    request := Request(UpToNul(buf[..]));
  }

  // ---------------------------------------------------------------------
  // get_config_value

  /** Size of the line buffer `fgets` fills. */
  const LineSize: nat := 256

  /** The line buffer after `fgets` stores line `l` in `b`: the line, its NUL,
      and whatever an earlier, longer line left after them. */
  function Fetched(b: seq<char>, l: string): (b': seq<char>)
    requires |b| == LineSize && |l| < LineSize
    ensures |b'| == LineSize
  {
    l + [Nul] + b[|l| + 1..]
  }

  /** The line buffer after `fgets` has returned each of `ls` in turn. */
  function LineBuffer(ls: seq<string>): (b: seq<char>)
    requires forall i :: 0 <= i < |ls| ==> |ls[i]| < LineSize
    ensures |b| == LineSize
  {
    if ls == [] then seq(LineSize, _ => Nul)
    else Fetched(LineBuffer(ls[..|ls| - 1]), ls[|ls| - 1])
  }

  /** The index of the first line that contains `key`. */
  function FirstMatch(ls: seq<string>, key: string): (k: Option<nat>)
    ensures k.Some? ==>
      k.value < |ls| && Contains(ls[k.value], key) && forall i :: 0 <= i < k.value ==> !Contains(ls[i], key)
    ensures k.None? ==> forall i :: 0 <= i < |ls| ==> !Contains(ls[i], key)
  {
    if ls == [] then None
    else if Contains(ls[0], key) then Some(0)
    else match FirstMatch(ls[1..], key)
      case None => None
      case Some(k) => Some(k + 1)
  }

  /** A configuration file holds the lines `fgets` returns one by one: at most
      LineSize - 1 characters each, no NUL. */
  predicate ValidConfig(ls: seq<string>)
  {
    forall i :: 0 <= i < |ls| ==> |ls[i]| < LineSize && NoNul(ls[i])
  }

  /** What `get_config_value(key)` returns: NULL when the file cannot be
      opened or no line contains the key; else the C string at offset
      strlen(key) + 1 of the line buffer just filled with the first matching
      line. */
  function ConfigValue(file: Option<seq<string>>, key: string): Option<string>
    requires file.Some? ==> ValidConfig(file.value)
  {
    match file
    case None => None
    case Some(ls) =>
      match FirstMatch(ls, key)
      case None => None
      case Some(k) =>
        assert |key| <= |ls[k]| < LineSize;
        Some(UpToNul(LineBuffer(ls[..k + 1])[|key| + 1..]))
  }

  /** `fgets(line, sizeof(line), f)` storing `l`. */
  method FetchLine(line: array<char>, l: string)
    requires line.Length == LineSize && |l| < LineSize
    modifies line
    ensures line[..] == Fetched(old(line[..]), l)
  {
    var j := 0;
    while j < |l|
      invariant 0 <= j <= |l|
      invariant forall k :: 0 <= k < j ==> line[k] == l[k]
      invariant forall k :: j <= k < LineSize ==> line[k] == old(line[k])
    {
      line[j] := l[j];
      j := j + 1;
    }
    line[|l|] := Nul;
  }

  /** `get_config_value(key)`: the lines of the file are read one at a time
      into a fixed buffer, and the first that contains the key, cut after the
      key and one more character, is returned. `file` is None when the file
      cannot be opened. */
  method GetConfigValue(file: Option<seq<string>>, key: string) returns (value: Option<string>)
    requires file.Some? ==> ValidConfig(file.value)
    ensures value == ConfigValue(file, key)
  {
    if file.None? {
      return None;
    }
    var ls := file.value;
    var line := new char[LineSize](_ => Nul);
    var i := 0;
    while i < |ls|
      invariant 0 <= i <= |ls|
      invariant line[..] == LineBuffer(ls[..i])
      invariant forall j :: 0 <= j < i ==> !Contains(ls[j], key)
    {
      FetchLine(line, ls[i]);
      assert ls[..i + 1][..i] == ls[..i];
      assert line[..] == LineBuffer(ls[..i + 1]);
      assert UpToNul(line[..]) == ls[i] by {
        UpToNulStops(ls[i], line[|ls[i]| + 1..]);
        UpToNulWhole(ls[i]);
        assert line[..] == ls[i] + [Nul] + line[|ls[i]| + 1..];
      }
      if Contains(UpToNul(line[..]), key) {
        FirstMatchAt(ls, key, i);
        return Some(UpToNul(line[|key| + 1..]));
      }
      i := i + 1;
    }
    FirstMatchNone(ls, key);
    return None;
  }

  lemma {:induction false} FirstMatchAt(ls: seq<string>, key: string, i: nat)
    requires i < |ls| && Contains(ls[i], key)
    requires forall j :: 0 <= j < i ==> !Contains(ls[j], key)
    ensures FirstMatch(ls, key) == Some(i)
  {
    if i > 0 {
      FirstMatchAt(ls[1..], key, i - 1);
    }
  }

  lemma {:induction false} FirstMatchNone(ls: seq<string>, key: string)
    requires forall j :: 0 <= j < |ls| ==> !Contains(ls[j], key)
    ensures FirstMatch(ls, key) == None
  {
    if ls != [] {
      FirstMatchNone(ls[1..], key);
    }
  }

  /** The value is the rest of the first line that contains the key as a
      substring, after its first strlen(key) + 1 characters, trailing newline
      included, whenever that line is longer than the key; NULL exactly when
      the file cannot be opened or no line contains the key. */
  lemma ConfigValueLine(file: Option<seq<string>>, key: string)
    requires file.Some? ==> ValidConfig(file.value)
    ensures ConfigValue(file, key).None? <==>
      file.None? || forall i :: 0 <= i < |file.value| ==> !Contains(file.value[i], key)
    ensures file.Some? && FirstMatch(file.value, key).Some? ==>
      var l := file.value[FirstMatch(file.value, key).value];
      |l| > |key| ==> ConfigValue(file, key) == Some(l[|key| + 1..])
  {
    if file.Some? && FirstMatch(file.value, key).Some? {
      var ls, k := file.value, FirstMatch(file.value, key).value;
      var l := ls[k];
      var b := LineBuffer(ls[..k + 1]);
      assert ls[..k + 1][..k] == ls[..k];
      assert b == l + [Nul] + LineBuffer(ls[..k])[|l| + 1..];
      if |l| > |key| {
        assert b[|key| + 1..] == l[|key| + 1..] + [Nul] + LineBuffer(ls[..k])[|l| + 1..];
        UpToNulStops(l[|key| + 1..], LineBuffer(ls[..k])[|l| + 1..]);
        UpToNulWhole(l[|key| + 1..]);
      }
    }
  }
}
