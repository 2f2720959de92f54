/** Walks over self-describing records in the memory of a tracee, which may hold anything:
    device-mapper lists (src/dm.c:164-234, 296-446) and LSM contexts (src/lsm.c:31-125).
 */
module RecordWalks {
  import opened Bits
  import opened Common

  // ---- device mapper ----

  datatype End = Finished | Truncated | Unreadable | Misplaced

  // How a record gives the offset of the next one.
  datatype Link =
    | FromRecord     // offset += next
    | FromDataStart  // offset = data_start + next

  function NextOffset(link: Link, dataStart: u32, offset: u32, next: u32): u32 {
    match link
    case FromRecord => (offset + next) % W32
    case FromDataStart => (dataStart + next) % W32
  }

  // Without wrap-around the next field is a distance, from the record or from the start of the
  // data; with it, the offset is smaller than either.
  lemma NextOffsetMeans(link: Link, dataStart: u32, offset: u32, next: u32)
    ensures var from := if link == FromRecord then offset else dataStart;
            var r := NextOffset(link, dataStart, offset, next);
            && (from + next < W32 ==> r == from + next)
            && (from + next >= W32 ==> r == from + next - W32 && r < from && r < next)
  {
  }

  // The header at an offset fits: it does not wrap around and ends within the data.
  predicate Fits(offset: u32, header: u32, dataSize: u32) {
    offset + header <= dataSize
  }

  // Each visited header fits, and starts behind the end of the one before it.
  ghost predicate InOrder(visited: seq<u32>, header: u32, dataSize: u32) {
    && (forall i :: 0 <= i < |visited| ==> Fits(visited[i], header, dataSize))
    && (forall i :: 0 < i < |visited| ==> visited[i - 1] + header < visited[i])
  }

  // b is where the record at a says the next one is.
  ghost predicate Follows(link: Link, dataStart: u32, read: u32 -> Option<u32>, a: u32, b: u32) {
    read(a).Some? && b == NextOffset(link, dataStart, a, read(a).value)
  }

  // The records visited are the chain that starts at dataStart, and all of them could be read.
  ghost predicate Chained(visited: seq<u32>, link: Link, dataStart: u32, read: u32 -> Option<u32>) {
    && (visited != [] ==> visited[0] == dataStart)
    && (forall i :: 0 <= i < |visited| ==> read(visited[i]).Some?)
    && (forall i :: 0 < i < |visited| ==> Follows(link, dataStart, read, visited[i - 1], visited[i]))
  }

  // Where the walk goes from here: the offset of the next record, wherever it may be.
  ghost predicate Continues(visited: seq<u32>, link: Link, dataStart: u32, read: u32 -> Option<u32>, offset: u32) {
    if visited == [] then offset == dataStart
    else Follows(link, dataStart, read, visited[|visited| - 1], offset)
  }

  // The end of the last header.
  function EndOf(visited: seq<u32>, header: u32): int {
    if visited == [] then 0 else visited[|visited| - 1] + header
  }

  // A header fits and starts behind the end of the last one.
  predicate WellPlaced(visited: seq<u32>, offset: u32, header: u32, dataSize: u32) {
    Fits(offset, header, dataSize) && (visited != [] ==> EndOf(visited, header) < offset)
  }

  // The walks of dm_decode_dm_target_spec, dm_decode_dm_name_list and
  // dm_decode_dm_target_versions.  `read` gives the next field of the record at an offset, if the
  // record can be read; `limit` is the number of records, if it is known; `zeroEnds` says whether
  // a next field of 0 ends the list.
  method DmWalk(dataStart: u32, dataSize: u32, header: u32, link: Link, limit: Option<nat>, zeroEnds: bool,
                read: u32 -> Option<u32>, truncate: nat -> bool)
    returns (visited: seq<u32>, end: End)
    requires header > 0
    ensures InOrder(visited, header, dataSize) && Chained(visited, link, dataStart, read)
    ensures |visited| * (header + 1) <= dataSize + 1
    ensures limit.Some? ==> |visited| <= limit.value
    ensures forall k :: 1 <= k <= |visited| ==> !truncate(k)
    ensures end == Finished <==>
              limit == Some(|visited|) || (zeroEnds && visited != [] && read(visited[|visited| - 1]) == Some(0))
    ensures end != Finished ==>
              exists offset: u32 ::
                && Continues(visited, link, dataStart, read, offset)
                && (end == Misplaced <==> !WellPlaced(visited, offset, header, dataSize))
                && (end == Truncated ==> truncate(|visited| + 1))
                && (end == Unreadable ==> !truncate(|visited| + 1) && read(offset).None?)
  {
    hide NextOffset, InOrder, Chained;
    NothingVisited(header, dataSize, link, dataStart, read);
    visited := [];
    var offset: u32, offsetEnd: u32 := dataStart, 0;
    while limit.None? || |visited| < limit.value
      invariant limit.Some? ==> |visited| <= limit.value
      invariant InOrder(visited, header, dataSize) && Chained(visited, link, dataStart, read)
      invariant forall k :: 1 <= k <= |visited| ==> !truncate(k)
      invariant zeroEnds && visited != [] ==> read(visited[|visited| - 1]) != Some(0)
      invariant Continues(visited, link, dataStart, read, offset)
      invariant offsetEnd == EndOf(visited, header) <= dataSize
      invariant |visited| * (header + 1) <= offsetEnd + 1
      decreases dataSize - offsetEnd, if visited == [] then 1 else 0
    {
      if |visited| != 0 && offset <= offsetEnd {
        return visited, Misplaced;
      }
      RoomUsed(|visited|, header, offsetEnd, offset);
      offsetEnd := (offset + header) % W32;
      WrapsOrNot(offset, header);
      if offsetEnd <= offset || offsetEnd > dataSize {
        return visited, Misplaced;
      }
      if truncate(|visited| + 1) {
        return visited, Truncated;
      }
      if read(offset).None? {
        return visited, Unreadable;
      }
      Extend(visited, offset, header, dataSize, link, dataStart, read);
      visited := visited + [offset];
      var next := read(offset).value;
      if zeroEnds && next == 0 {
        return visited, Finished;
      }
      offset := NextOffset(link, dataStart, offset, next);
    }
    end := Finished;
  }

  // A list laid out as the kernel does: each record starts behind the header of the one before it,
  // where that one says, all headers are inside the data, and the last one has no successor.
  ghost predicate LaidOut(at: seq<u32>, dataStart: u32, dataSize: u32, header: u32, read: u32 -> Option<u32>) {
    && |at| > 0 && at[0] == dataStart
    && (forall i :: 0 <= i < |at| ==> at[i] + header <= dataSize)
    && (forall i :: 0 < i < |at| ==> at[i - 1] + header < at[i] && read(at[i - 1]) == Some(at[i] - at[i - 1]))
    && read(at[|at| - 1]) == Some(0)
  }

  // Such a list is walked to its end, record by record.
  method WalkNameList(at: seq<u32>, dataStart: u32, dataSize: u32, header: u32, read: u32 -> Option<u32>)
    returns (visited: seq<u32>, end: End)
    requires header > 0 && LaidOut(at, dataStart, dataSize, header, read)
    ensures visited == at && end == Finished
  {
    visited, end := DmWalk(dataStart, dataSize, header, FromRecord, None, true, read, _ => false);
    forall i | 0 <= i < |visited|
      ensures i < |at| && visited[i] == at[i]
    {
      SameChain(visited, at, dataStart, dataSize, header, read, i);
    }
    if |visited| < |at| {
      Onward(visited, at, dataStart, dataSize, header, read);
    }
  }

  // A walk that stays on such a list follows it.
  lemma {:induction false} SameChain(visited: seq<u32>, at: seq<u32>, dataStart: u32, dataSize: u32, header: u32,
                                     read: u32 -> Option<u32>, i: nat)
    requires header > 0 && LaidOut(at, dataStart, dataSize, header, read)
    requires InOrder(visited, header, dataSize) && Chained(visited, FromRecord, dataStart, read) && i < |visited|
    ensures i < |at| && visited[i] == at[i]
  {
    if i > 0 {
      SameChain(visited, at, dataStart, dataSize, header, read, i - 1);
      assert Follows(FromRecord, dataStart, read, visited[i - 1], visited[i]);
      assert i < |at| ==> read(at[i - 1]) == Some(at[i] - at[i - 1]);
    }
  }

  // Nothing but a laid out record comes next.
  lemma Onward(visited: seq<u32>, at: seq<u32>, dataStart: u32, dataSize: u32, header: u32, read: u32 -> Option<u32>)
    requires header > 0 && LaidOut(at, dataStart, dataSize, header, read) && visited <= at && |visited| < |at|
    ensures forall offset: u32 :: Continues(visited, FromRecord, dataStart, read, offset) ==> offset == at[|visited|]
    ensures WellPlaced(visited, at[|visited|], header, dataSize) && read(at[|visited|]).Some?
    ensures visited != [] ==> read(visited[|visited| - 1]) != Some(0)
  {
    var n := |visited|;
    if n > 0 {
      assert visited[n - 1] == at[n - 1];
    }
    if n + 1 < |at| {
      assert read(at[n]) == Some(at[n + 1] - at[n]);
    }
  }

  lemma Extend(visited: seq<u32>, offset: u32, header: u32, dataSize: u32, link: Link, dataStart: u32,
               read: u32 -> Option<u32>)
    requires InOrder(visited, header, dataSize) && Chained(visited, link, dataStart, read)
    requires Continues(visited, link, dataStart, read, offset) && read(offset).Some?
    requires WellPlaced(visited, offset, header, dataSize)
    ensures InOrder(visited + [offset], header, dataSize)
    ensures Chained(visited + [offset], link, dataStart, read)
    ensures EndOf(visited + [offset], header) == offset + header
  {
  }

  lemma NothingVisited(header: u32, dataSize: u32, link: Link, dataStart: u32, read: u32 -> Option<u32>)
    ensures InOrder([], header, dataSize) && Chained([], link, dataStart, read)
  {
  }

  lemma WrapsOrNot(offset: u32, header: u32)
    requires header > 0
    ensures (offset + header) % W32 == if offset + header < W32 then offset + header else offset + header - W32
  {
  }

  lemma RoomUsed(count: nat, header: nat, previousEnd: nat, offset: nat)
    requires count * (header + 1) <= previousEnd + 1
    requires count == 0 || previousEnd < offset
    ensures (count + 1) * (header + 1) <= offset + header + 1
  {
    assert (count + 1) * (header + 1) == count * (header + 1) + (header + 1);
    assert count == 0 ==> count * (header + 1) == 0;
  }

  // Headers of different records do not overlap.
  lemma {:induction false} HeadersDisjoint(visited: seq<u32>, header: u32, dataSize: u32, i: nat, j: nat)
    requires InOrder(visited, header, dataSize) && i < j < |visited|
    ensures visited[i] + header < visited[j]
  {
    if i + 1 < j {
      HeadersDisjoint(visited, header, dataSize, i, j - 1);
    }
  }

  // ---- LSM contexts ----

  // The fields of struct lsm_ctx that steer the walk, and its size.
  datatype LsmCtx = LsmCtx(len: u64, ctxLen: u64)

  const SIZEOF_LSM_CTX: nat := 32

  // A stretch of memory.
  datatype Range = Range(addr: int, len: int)

  ghost predicate Within(r: Range, outer: Range) {
    outer.addr <= r.addr && r.addr + r.len <= outer.addr + outer.len
  }

  // The payload printed for a record: what is behind the header, as long as the record says unless
  // the record or the buffer ends before; decode_lsm_ctx clamps it to both.
  function Payload(ctx: LsmCtx, addr: u64, len: u32): (r: Range)
    ensures 0 <= r.len <= ctx.ctxLen && r.addr == addr + SIZEOF_LSM_CTX
    ensures r.len > 0 ==> Within(r, Range(addr, len)) && Within(r, Range(addr, ctx.len))
    ensures SIZEOF_LSM_CTX + ctx.ctxLen <= ctx.len && SIZEOF_LSM_CTX + ctx.ctxLen <= len ==> r.len == ctx.ctxLen
    ensures r.len < ctx.ctxLen ==> SIZEOF_LSM_CTX + r.len >= ctx.len || SIZEOF_LSM_CTX + r.len >= len
  {
    var msgLen := if ctx.len < len then ctx.len else len;
    var msgCtxLen := if msgLen > SIZEOF_LSM_CTX then msgLen - SIZEOF_LSM_CTX else 0;
    Range(addr + SIZEOF_LSM_CTX, if ctx.ctxLen < msgCtxLen then ctx.ctxLen else msgCtxLen)
  }

  // What is left of the buffer after a record, if there is another one.
  function NextRecord(ctx: LsmCtx, r: Range): Option<Range> {
    if SIZEOF_LSM_CTX <= ctx.len < r.len && r.addr + ctx.len < W64 then Some(Range(r.addr + ctx.len, r.len - ctx.len))
    else None
  }

  // A stretch of memory that starts with a readable header.
  predicate Readable(read: int -> Option<LsmCtx>, r: Range) {
    r.len >= SIZEOF_LSM_CTX && read(r.addr).Some?
  }

  // The records of a buffer, each with what is left of the buffer from it on.
  ghost predicate Records(read: int -> Option<LsmCtx>, buffer: Range, records: seq<Range>) {
    && (records != [] ==> records[0] == buffer)
    && (forall i :: 0 <= i < |records| ==> Readable(read, records[i]))
    && (forall i :: 0 < i < |records| ==>
          NextRecord(read(records[i - 1].addr).value, records[i - 1]) == Some(records[i]))
  }

  // The walk neither leaves the buffer nor loses any of it: what is left of it always ends where
  // the buffer ends, and every payload lies inside.
  lemma {:induction false} RecordsInside(read: int -> Option<LsmCtx>, buffer: Range, records: seq<Range>, i: nat)
    requires 0 <= buffer.addr && Records(read, buffer, records) && i < |records|
    ensures records[i].addr + records[i].len == buffer.addr + buffer.len
    ensures buffer.addr + i * SIZEOF_LSM_CTX <= records[i].addr
    ensures (i + 1) * SIZEOF_LSM_CTX <= buffer.len
    ensures records[i].len < W32 && records[i].addr < W64 ==>
              var p := Payload(read(records[i].addr).value, records[i].addr, records[i].len);
              p.len > 0 ==> Within(p, buffer)
  {
    assert Readable(read, records[i]);
    if i > 0 {
      RecordsInside(read, buffer, records, i - 1);
    }
  }

  // What is printed of the records.
  ghost predicate Payloads(read: int -> Option<LsmCtx>, records: seq<Range>, payloads: seq<Range>) {
    && |payloads| == |records|
    && forall i :: 0 <= i < |records| ==>
         var r := records[i];
         && 0 <= r.addr < W64 && 0 <= r.len < W32
         && read(r.addr).Some? && payloads[i] == Payload(read(r.addr).value, r.addr, r.len)
  }

  // Where the walk goes from here.
  ghost function NextPlace(read: int -> Option<LsmCtx>, buffer: Range, records: seq<Range>): Option<Range>
    requires Records(read, buffer, records)
  {
    if records == [] then Some(buffer)
    else
      var last := records[|records| - 1];
      NextRecord(read(last.addr).value, last)
  }

  lemma OneMoreRecord(read: int -> Option<LsmCtx>, buffer: Range, records: seq<Range>, r: Range)
    requires Records(read, buffer, records) && NextPlace(read, buffer, records) == Some(r) && Readable(read, r)
    ensures Records(read, buffer, records + [r])
    ensures NextPlace(read, buffer, records + [r]) == NextRecord(read(r.addr).value, r)
  {
    hide NextRecord;
  }

  // Records laid out one behind the other, of the given lengths, with what is left of the buffer
  // from each one on.
  ghost function LaidOutCtx(buffer: Range, lens: seq<nat>): seq<Range>
    decreases lens
  {
    if lens == [] then []
    else [buffer] + LaidOutCtx(Range(buffer.addr + lens[0], buffer.len - lens[0]), lens[1..])
  }

  ghost function Total(lens: seq<nat>): nat {
    if lens == [] then 0 else lens[0] + Total(lens[1..])
  }

  // The memory holds records of these lengths, which fill the buffer.
  ghost predicate Holds(read: int -> Option<LsmCtx>, buffer: Range, lens: seq<nat>) {
    && buffer.len == Total(lens) && 0 <= buffer.addr && buffer.addr + buffer.len < W64
    && (forall i :: 0 <= i < |lens| ==> lens[i] >= SIZEOF_LSM_CTX)
    && forall i :: 0 <= i < |lens| ==> HoldsAt(read, LaidOutCtx(buffer, lens), lens, i)
  }

  ghost predicate HoldsAt(read: int -> Option<LsmCtx>, places: seq<Range>, lens: seq<nat>, i: nat)
    requires i < |lens|
  {
    i < |places| && read(places[i].addr).Some? && read(places[i].addr).value.len == lens[i]
  }

  // The places of such records: each has room for its own length, and the next one is behind it.
  lemma {:induction false} Places(buffer: Range, lens: seq<nat>, i: nat)
    requires i < |lens| && buffer.len == Total(lens)
    ensures var at := LaidOutCtx(buffer, lens);
            && |at| == |lens|
            && at[i].addr + at[i].len == buffer.addr + buffer.len && buffer.addr <= at[i].addr && at[i].len >= lens[i]
            && (i + 1 < |lens| ==> at[i + 1] == Range(at[i].addr + lens[i], at[i].len - lens[i]))
            && (i + 1 < |lens| ==> at[i].len >= lens[i] + lens[i + 1])
            && (i + 1 == |lens| ==> at[i].len == lens[i])
            && at[0] == buffer
    decreases lens
  {
    var rest := Range(buffer.addr + lens[0], buffer.len - lens[0]);
    if |lens| > 1 {
      Places(rest, lens[1..], if i > 0 then i - 1 else 0);
    }
  }

  // They are walked to the last one.
  lemma {:induction false} LaidOutIsWalked(read: int -> Option<LsmCtx>, buffer: Range, lens: seq<nat>, records: seq<Range>)
    requires Holds(read, buffer, lens) && lens != [] && Records(read, buffer, records)
    ensures records <= LaidOutCtx(buffer, lens) && |LaidOutCtx(buffer, lens)| == |lens|
    ensures NextPlace(read, buffer, records) ==
            if |records| < |lens| then Some(LaidOutCtx(buffer, lens)[|records|]) else None
    ensures |records| < |lens| ==> Readable(read, LaidOutCtx(buffer, lens)[|records|])
  {
    hide LaidOutCtx;
    var at := LaidOutCtx(buffer, lens);
    Places(buffer, lens, 0);
    var n := |records|;
    if n > 0 {
      var init := records[..n - 1];
      assert Records(read, buffer, init) by { RecordsInit(read, buffer, records); }
      LaidOutIsWalked(read, buffer, lens, init);
      LastFollows(read, buffer, records);
      Places(buffer, lens, n - 1);
      assert HoldsAt(read, at, lens, n - 1);
      assert records == init + [records[n - 1]];
    }
    if n < |lens| {
      Places(buffer, lens, n);
      assert HoldsAt(read, at, lens, n);
    }
  }

  lemma RecordsInit(read: int -> Option<LsmCtx>, buffer: Range, records: seq<Range>)
    requires records != [] && Records(read, buffer, records)
    ensures Records(read, buffer, records[..|records| - 1])
  {
    hide NextRecord;
    var init := records[..|records| - 1];
    assert forall i :: 0 <= i < |init| ==> init[i] == records[i];
  }

  lemma LastFollows(read: int -> Option<LsmCtx>, buffer: Range, records: seq<Range>)
    requires records != [] && Records(read, buffer, records) && Records(read, buffer, records[..|records| - 1])
    ensures NextPlace(read, buffer, records[..|records| - 1]) == Some(records[|records| - 1])
  {
    hide NextRecord;
  }

  // decode_lsm_ctx_sequence prints all of them.
  method WalkLaidOut(addr: u64, len: u32, read: int -> Option<LsmCtx>, ghost lens: seq<nat>)
    returns (records: seq<Range>, end: LsmEnd)
    requires lens != [] && Holds(read, Range(addr, len), lens)
    ensures records == LaidOutCtx(Range(addr, len), lens) && end == LastRecord
  {
    hide Records, Holds, LaidOutCtx, NextPlace, Payloads;
    var payloads: seq<Range>;
    records, payloads, end := LsmWalk(addr, len, read, _ => false);
    LaidOutIsWalked(read, Range(addr, len), lens, records);
  }

  lemma NoRecords(read: int -> Option<LsmCtx>, buffer: Range)
    ensures Records(read, buffer, []) && NextPlace(read, buffer, []) == Some(buffer)
  {
  }

  lemma NextIsSmaller(ctx: LsmCtx, r: Range)
    ensures NextRecord(ctx, r).Some? ==> 0 < NextRecord(ctx, r).value.len < r.len
  {
  }

  // The step from a record to the next one, in 64-bit arithmetic; 0 stands for no address.
  method NextLsmCtx(ctx: LsmCtx, addr: u64, len: u32) returns (nextAddr: u64, nextLen: u32)
    ensures NextRecord(ctx, Range(addr, len)) == if nextAddr == 0 then None else Some(Range(nextAddr, nextLen))
  {
    nextAddr, nextLen := 0, 0;
    if ctx.len >= SIZEOF_LSM_CTX {
      if len >= ctx.len {
        nextLen := len - ctx.len;
      }
      if nextLen > 0 && (addr + ctx.len) % W64 > addr {
        nextAddr := (addr + ctx.len) % W64;
      }
    }
  }

  datatype LsmEnd = LastRecord | MoreFollows | NoHeader

  // decode_lsm_ctx_sequence
  method LsmWalk(addr0: u64, len0: u32, read: int -> Option<LsmCtx>, truncate: nat -> bool)
    returns (records: seq<Range>, payloads: seq<Range>, end: LsmEnd)
    ensures Records(read, Range(addr0, len0), records) && Payloads(read, records, payloads)
    ensures forall k :: 1 <= k <= |records| ==> !truncate(k)
    ensures var next := NextPlace(read, Range(addr0, len0), records);
            && (end == LastRecord <==> next.None?)
            && (end == MoreFollows <==> next.Some? && Readable(read, next.value))
            && (end == MoreFollows ==> truncate(|records| + 1))
  {
    hide Records, NextPlace, NextRecord, Payload;
    records, payloads := [], [];
    NoRecords(read, Range(addr0, len0));
    var addr: u64, len: u32 := addr0, len0;
    while len >= SIZEOF_LSM_CTX && read(addr).Some?
      invariant Records(read, Range(addr0, len0), records)
      invariant Payloads(read, records, payloads)
      invariant forall k :: 1 <= k <= |records| ==> !truncate(k)
      invariant NextPlace(read, Range(addr0, len0), records) == Some(Range(addr, len))
      decreases len
    {
      if truncate(|records| + 1) {
        return records, payloads, MoreFollows;
      }
      var ctx := read(addr).value;
      var nextAddr, nextLen := NextLsmCtx(ctx, addr, len);
      OneMoreRecord(read, Range(addr0, len0), records, Range(addr, len));
      NextIsSmaller(ctx, Range(addr, len));
      records := records + [Range(addr, len)];
      payloads := payloads + [Payload(ctx, addr, len)];
      if nextAddr == 0 {
        return records, payloads, LastRecord;
      }
      addr, len := nextAddr, nextLen;
    }
    assert !Readable(read, Range(addr, len));
    end := NoHeader;
  }
}
