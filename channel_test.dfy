/** The payload protocol of the io-channel self-test. The client packs an
    iteration number and a block count into each entry's id, fills the
    entry's buffer with the block count, and submits it; the server checks
    every byte and rewrites it to the block count's complement; the client
    checks the rewritten bytes and finally compares the sum of the ids it
    sent with the sum of the ids it got back. The channel itself is an
    abstract carrier: its replies are inputs here. */
module ChannelTest {
  import opened Machine

  const CHANNEL_TEST_ITERS: nat := 1000
  /** Block counts run over `1..11`. */
  const MAX_BLOCKS: nat := 10
  const BLOCK_SIZE: nat := 512
  const TWO_POW_32: nat := 0x1_0000_0000

  /** The buffer handle an entry carries. */
  datatype BufferToken = BufferToken(handle: u64)

  /** The status an entry carries: not set yet, or `ErrorCode::Ok`. */
  datatype Status = Unset | StatusOk

  datatype QueueEntry = QueueEntry(id: u64, status: Status, buffer: BufferToken)

  // ---------------------------------------------------------------------
  // Entry ids
  // ---------------------------------------------------------------------

  /** `(iter << 32) + num_blocks` on a `u64`: the shift drops the high 32 bits
      of `iter`, and the addition cannot carry past bit 63. */
  function PackId(iter: u64, numBlocks: u16): (id: u64)
    ensures id / TWO_POW_32 == iter % TWO_POW_32 && id % TWO_POW_32 == numBlocks
  {
    (iter % TWO_POW_32) * TWO_POW_32 + numBlocks
  }

  /** `(id & 0xFFFF) as u8`: the low 16 bits, cut to the low 8. */
  function BlocksOf(id: u64): (k: u8)
    ensures k == id % 0x100
  {
    (id % 0x1_0000) % 0x100
  }

  /** Decoding a packed id gives back the block count, for every iteration. */
  lemma BlocksOfPackId(iter: u64, numBlocks: u16)
    requires 1 <= numBlocks <= MAX_BLOCKS
    ensures BlocksOf(PackId(iter, numBlocks)) == numBlocks
  {
    var id := PackId(iter, numBlocks);
    var q := iter % TWO_POW_32;
    assert id == (q * 0x100_0000) * 0x100 + numBlocks;
  }

  /** Distinct (iteration, block count) pairs of the test get distinct ids. */
  lemma PackIdInjective(i1: u64, n1: u16, i2: u64, n2: u16)
    requires i1 < TWO_POW_32 && i2 < TWO_POW_32
    requires PackId(i1, n1) == PackId(i2, n2)
    ensures i1 == i2 && n1 == n2
  {
  }

  // ---------------------------------------------------------------------
  // Buffers
  // ---------------------------------------------------------------------

  /** `k ^ 0xFF` on a `u8`: every bit flipped, which is `255 - k`. */
  function Complement(k: u8): (c: u8)
    ensures c != k && c + k == 0xFF
  {
    0xFF - k
  }

  /** `Complement` is the bitwise exclusive or with `0xFF`. */
  lemma ComplementIsXor(k: bv8)
    ensures Complement(k as int) == (k ^ 0xFF) as int
  {
  }

  /** The client's fill: every byte of the buffer holds `num_blocks as u8`. */
  method Fill(buf: array<u8>, numBlocks: u16)
    modifies buf
    ensures forall i | 0 <= i < buf.Length :: buf[i] == numBlocks % 0x100
  {
    var b := numBlocks % 0x100;
    var idx := 0;
    while idx < buf.Length
      invariant 0 <= idx <= buf.Length
      invariant forall i | 0 <= i < idx :: buf[i] == b
    {
      buf[idx] := b;
      idx := idx + 1;
    }
  }

  /** What the server's check makes of a buffer. */
  datatype ServeResult =
    | Served            // every byte checked and rewritten
    | BadLength         // `assert_eq!(slice.len(), num_blocks * 512)` fails
    | BadByte(at: nat)  // `assert_eq!(slice[idx], num_blocks)` fails at `at`

  /** The first index at or after `from` whose byte is not `k`, or `|s|`. */
  function FirstMismatch(s: seq<u8>, k: u8, from: nat): (i: nat)
    requires from <= |s|
    ensures from <= i <= |s|
    ensures forall j | from <= j < i :: s[j] == k
    ensures i < |s| ==> s[i] != k
    decreases |s| - from
  {
    if from == |s| || s[from] != k then from else FirstMismatch(s, k, from + 1)
  }

  /** `s` with its first `j` bytes overwritten by `b`. */
  function Overwritten(s: seq<u8>, j: nat, b: u8): (t: seq<u8>)
    requires j <= |s|
    ensures |t| == |s|
    ensures forall i | 0 <= i < j :: t[i] == b
    ensures forall i | j <= i < |s| :: t[i] == s[i]
  {
    seq(j, _ => b) + s[j..]
  }

  /** The server's check-and-rewrite loop on a buffer of the entry `id`: a
      length check, then byte by byte a check and a rewrite to the
      complement. A failed check panics with the bytes before it rewritten. */
  function ServerPass(s: seq<u8>, id: u64): (r: (ServeResult, seq<u8>))
  {
    var k := BlocksOf(id);
    if |s| != k * BLOCK_SIZE then (BadLength, s)
    else
      var j := FirstMismatch(s, k, 0);
      (if j == |s| then Served else BadByte(j), Overwritten(s, j, Complement(k)))
  }

  /** The server's demand on a buffer: `num_blocks * 512` bytes, all equal to
      `num_blocks`. */
  ghost predicate ServerAccepts(s: seq<u8>, id: u64) {
    |s| == BlocksOf(id) * BLOCK_SIZE && forall i | 0 <= i < |s| :: s[i] == BlocksOf(id)
  }

  /** The client's check of a completed buffer: every byte is the complement. */
  ghost predicate ClientAccepts(s: seq<u8>, id: u64) {
    forall i | 0 <= i < |s| :: s[i] == Complement(BlocksOf(id))
  }

  /** The server's pass succeeds exactly on the buffers it demands, keeps the
      length, and then leaves every byte complemented. */
  lemma ServerPassSpec(s: seq<u8>, id: u64)
    ensures ServerPass(s, id).0 == Served <==> ServerAccepts(s, id)
    ensures |ServerPass(s, id).1| == |s|
    ensures ServerPass(s, id).0 == Served ==> ClientAccepts(ServerPass(s, id).1, id)
    ensures ServerPass(s, id).0.BadByte? ==>
              var j := ServerPass(s, id).0.at; j < |s| && s[j] != BlocksOf(id)
  {
    var k := BlocksOf(id);
    if |s| == k * BLOCK_SIZE {
      var j := FirstMismatch(s, k, 0);
      if j == |s| {
        assert ServerPass(s, id).1 == seq(|s|, _ => Complement(k));
      }
    }
  }

  /** The client accepts exactly the buffers the server produces from the
      buffers it accepts: complementing is its own inverse, so a buffer the
      client accepts is the image of the all-`num_blocks` buffer of the same
      length, and that buffer is the one the server demands when the length
      is right. */
  lemma ClientAcceptsServerImages(s: seq<u8>, id: u64)
    requires |s| == BlocksOf(id) * BLOCK_SIZE
    ensures ClientAccepts(s, id) <==>
              exists t :: ServerAccepts(t, id) && ServerPass(t, id) == (Served, s)
  {
    var k := BlocksOf(id);
    if ClientAccepts(s, id) {
      var t := seq(|s|, _ => k);
      ServerPassSpec(t, id);
      assert ServerPass(t, id).1 == s;
      assert ServerAccepts(t, id) && ServerPass(t, id) == (Served, s);
    }
    if exists t :: ServerAccepts(t, id) && ServerPass(t, id) == (Served, s) {
      var t :| ServerAccepts(t, id) && ServerPass(t, id) == (Served, s);
      ServerPassSpec(t, id);
    }
  }

  /** The server's loop in place, proved against `ServerPass`. */
  method ServeBuffer(buf: array<u8>, id: u64) returns (result: ServeResult)
    modifies buf
    ensures result == ServerPass(old(buf[..]), id).0
    ensures buf[..] == ServerPass(old(buf[..]), id).1
  {
    ghost var s := buf[..];
    var k := BlocksOf(id);
    if buf.Length != k * BLOCK_SIZE {
      return BadLength;
    }
    var idx := 0;
    while idx < buf.Length
      invariant 0 <= idx <= buf.Length
      invariant forall j | 0 <= j < idx :: s[j] == k && buf[j] == Complement(k)
      invariant forall j | idx <= j < buf.Length :: buf[j] == s[j]
    {
      if buf[idx] != k {
        assert FirstMismatch(s, k, 0) == idx;
        assert buf[..] == Overwritten(s, idx, Complement(k));
        return BadByte(idx);
      }
      buf[idx] := Complement(k);
      idx := idx + 1;
    }
    assert FirstMismatch(s, k, 0) == idx;
    assert buf[..] == Overwritten(s, idx, Complement(k));
    result := Served;
  }

  /** The client's check of one completion; `false` is the failed
      `assert_eq!`. */
  method VerifyCompletion(buf: array<u8>, id: u64) returns (ok: bool)
    ensures ok <==> ClientAccepts(buf[..], id)
  {
    var expected := Complement(BlocksOf(id));
    var idx := 0;
    while idx < buf.Length
      invariant 0 <= idx <= buf.Length
      invariant forall j | 0 <= j < idx :: buf[j] == expected
    {
      if buf[idx] != expected {
        return false;
      }
      idx := idx + 1;
    }
    return true;
  }

  /** One entry of the test, end to end: the client fills a buffer of
      `num_blocks` blocks, the server checks and rewrites it, and the client's
      check passes. */
  method RoundTrip(iter: u64, numBlocks: u16) returns (ok: bool)
    requires 1 <= numBlocks <= MAX_BLOCKS
    ensures ok
  {
    var id := PackId(iter, numBlocks);
    BlocksOfPackId(iter, numBlocks);
    var buf := new u8[numBlocks as int * BLOCK_SIZE];
    Fill(buf, numBlocks);
    ghost var filled := buf[..];
    assert ServerAccepts(filled, id);
    ServerPassSpec(filled, id);
    var result := ServeBuffer(buf, id);
    assert result == Served && ClientAccepts(buf[..], id);
    ok := VerifyCompletion(buf, id);
    ok := result == Served && ok;
  }

  // ---------------------------------------------------------------------
  // Completion and retry
  // ---------------------------------------------------------------------

  /** What the channel answers to `complete_sqe`: taken; full (`NotReady`),
      after which the server waits and the wait either returns or fails; or
      any other error, which fails `assert_eq!(err, ErrorCode::NotReady)`. */
  datatype Reply = Accepted | Full(waitOk: bool) | Failed

  /** Every reply either takes the entry or asks for a retry that can go
      ahead. */
  predicate Retryable(replies: seq<Reply>) {
    forall i | 0 <= i < |replies| :: replies[i] == Accepted || replies[i] == Full(true)
  }

  /** How the server's handling of one entry ends. */
  datatype Handled =
    | Completed(entry: QueueEntry)  // `complete_sqe` took the entry
    | Stopped                       // a wait failed: `break 'outer`
    | Panicked                      // a check failed
    | Waiting                       // the replies ran out while the queue was full

  /** `server_loop` for one entry, as written: a full completion queue makes
      `continue` restart the inner loop, which checks and rewrites the buffer
      again before retrying. */
  function HandleAsWritten(entry: QueueEntry, s: seq<u8>, replies: seq<Reply>): (r: Handled)
    decreases |replies|
  {
    var (result, s') := ServerPass(s, entry.id);
    if result != Served then Panicked
    else if replies == [] then Waiting
    else match replies[0]
      case Accepted => Completed(entry.(status := StatusOk))
      case Failed => Panicked
      case Full(waitOk) => if !waitOk then Stopped else HandleAsWritten(entry, s', replies[1..])
  }

  /** A full completion queue followed by a successful wait makes the server
      panic on a buffer it has just served correctly: the second check finds
      the complement where it expects the block count. Checking once and
      retrying only the completion delivers it. */
  lemma HandleAsWrittenPanicsOnRetry()
    ensures var entry := QueueEntry(PackId(0, 1), Unset, BufferToken(0));
      HandleAsWritten(entry, seq(BLOCK_SIZE, _ => 1), [Full(true), Accepted]) == Panicked
    ensures var entry := QueueEntry(PackId(0, 1), Unset, BufferToken(0));
      Handle(entry, seq(BLOCK_SIZE, _ => 1), [Full(true), Accepted]) == Completed(entry.(status := StatusOk))
  {
    var entry := QueueEntry(PackId(0, 1), Unset, BufferToken(0));
    var s := seq(BLOCK_SIZE, _ => 1);
    ServerPassSpec(s, entry.id);
    var s' := ServerPass(s, entry.id).1;
    assert s'[0] == Complement(1);
    ServerPassSpec(s', entry.id);
    assert !ServerAccepts(s', entry.id);
  }

  /** The same for every buffer the server accepts: after a full completion
      queue and a successful wait, the re-check panics unless the block count
      is 0, where the buffer is empty and the re-check finds nothing to
      compare. */
  lemma HandleAsWrittenRetryPanics(entry: QueueEntry, s: seq<u8>, rest: seq<Reply>)
    requires ServerAccepts(s, entry.id)
    ensures BlocksOf(entry.id) >= 1 ==> HandleAsWritten(entry, s, [Full(true)] + rest) == Panicked
    ensures BlocksOf(entry.id) == 0 ==>
              HandleAsWritten(entry, s, [Full(true)] + rest) == HandleAsWritten(entry, s, rest)
  {
    assert ([Full(true)] + rest)[0] == Full(true) && ([Full(true)] + rest)[1..] == rest;
    ServerPassSpec(s, entry.id);
    var s' := ServerPass(s, entry.id).1;
    if BlocksOf(entry.id) >= 1 {
      assert s'[0] == Complement(BlocksOf(entry.id));
      ServerPassSpec(s', entry.id);
    } else {
      assert s' == s == [];
    }
  }

  /** The retry of `complete_sqe` alone, as the server evidently intends. */
  function RetryComplete(entry: QueueEntry, replies: seq<Reply>): (r: Handled)
    decreases |replies|
  {
    if replies == [] then Waiting
    else match replies[0]
      case Accepted => Completed(entry)
      case Failed => Panicked
      case Full(waitOk) => if !waitOk then Stopped else RetryComplete(entry, replies[1..])
  }

  /** `server_loop` for one entry with the check done once and only the
      completion retried. */
  function Handle(entry: QueueEntry, s: seq<u8>, replies: seq<Reply>): (r: Handled)
  {
    if ServerPass(s, entry.id).0 != Served then Panicked
    else RetryComplete(entry.(status := StatusOk), replies)
  }

  /** Every completion the server sends carries status `Ok`, the id and the
      buffer it dequeued; a buffer the server rejects makes it panic, one it
      accepts only an unexpected channel error; and it completes once the
      channel takes the entry, however many full-queue retries come first. */
  lemma HandleSpec(entry: QueueEntry, s: seq<u8>, replies: seq<Reply>)
    ensures Handle(entry, s, replies).Completed? ==>
              Handle(entry, s, replies).entry == entry.(status := StatusOk)
    ensures !ServerAccepts(s, entry.id) ==> Handle(entry, s, replies) == Panicked
    ensures ServerAccepts(s, entry.id) && Failed !in replies ==> Handle(entry, s, replies) != Panicked
    ensures ServerAccepts(s, entry.id) && Accepted in replies && Retryable(replies) ==>
              Handle(entry, s, replies) == Completed(entry.(status := StatusOk))
  {
    ServerPassSpec(s, entry.id);
    RetryCompleteSpec(entry.(status := StatusOk), replies);
  }

  /** Retrying the completion delivers the entry unchanged, and panics only
      on an unexpected channel error. */
  lemma {:induction false} RetryCompleteSpec(entry: QueueEntry, replies: seq<Reply>)
    ensures Failed !in replies ==> RetryComplete(entry, replies) != Panicked
    ensures RetryComplete(entry, replies).Completed? ==> RetryComplete(entry, replies).entry == entry
    ensures Accepted in replies && Retryable(replies) ==> RetryComplete(entry, replies) == Completed(entry)
    decreases |replies|
  {
    if replies != [] && replies[0].Full? && replies[0].waitOk {
      RetryCompleteSpec(entry, replies[1..]);
      assert Failed !in replies ==> Failed !in replies[1..];
      if Accepted in replies && Retryable(replies) {
        assert Accepted in replies[1..];
        forall i | 0 <= i < |replies[1..]|
          ensures replies[1..][i] == Accepted || replies[1..][i] == Full(true)
        {
          assert replies[1..][i] == replies[i + 1];
        }
      }
    }
  }

  /** The corrected server step in place: check and rewrite once, then retry
      the completion until the channel takes it or a wait fails. */
  method HandleEntry(entry: QueueEntry, buf: array<u8>, replies: seq<Reply>) returns (r: Handled)
    modifies buf
    ensures r == Handle(entry, old(buf[..]), replies)
    ensures buf[..] == ServerPass(old(buf[..]), entry.id).1
  {
    var result := ServeBuffer(buf, entry.id);
    if result != Served {
      return Panicked;
    }
    var sqe := entry.(status := StatusOk);
    var i := 0;
    while i < |replies|
      invariant 0 <= i <= |replies|
      invariant RetryComplete(sqe, replies) == RetryComplete(sqe, replies[i..])
    {
      assert replies[i..][1..] == replies[i + 1..];
      match replies[i]
      case Accepted =>
        return Completed(sqe);
      case Failed =>
        return Panicked;
      case Full(waitOk) =>
        if !waitOk {
          return Stopped;
        }
      i := i + 1;
    }
    r := Waiting;
  }

  // ---------------------------------------------------------------------
  // Sums of ids
  // ---------------------------------------------------------------------

  function SumIds(ids: seq<u64>): (t: int)
    ensures t >= 0
  {
    if ids == [] then 0 else SumIds(ids[..|ids| - 1]) + ids[|ids| - 1]
  }

  /** The ids the client submits, in order: iteration-major, block counts
      1 to 10 within each iteration. */
  function SentIds(): (ids: seq<u64>)
    ensures |ids| == CHANNEL_TEST_ITERS * MAX_BLOCKS
  {
    seq(CHANNEL_TEST_ITERS * MAX_BLOCKS, j requires 0 <= j < CHANNEL_TEST_ITERS * MAX_BLOCKS =>
      PackId(j / MAX_BLOCKS, (j % MAX_BLOCKS + 1) as u16))
  }

  /** The largest id the test submits. */
  const MAX_ID: nat := (CHANNEL_TEST_ITERS - 1) * TWO_POW_32 + MAX_BLOCKS

  lemma {:induction false} SumIdsBound(ids: seq<u64>, bound: nat)
    requires forall i | 0 <= i < |ids| :: ids[i] <= bound
    ensures SumIds(ids) <= |ids| * bound
  {
    if ids != [] {
      SumIdsBound(ids[..|ids| - 1], bound);
    }
  }

  /** The client's submit loops: `values_sent` is the sum of the submitted
      ids, and with 1000 iterations of 10 blocks it never overflows. */
  method SendAll() returns (sent: seq<u64>, valuesSent: u64)
    ensures sent == SentIds()
    ensures valuesSent == SumIds(sent)
  {
    sent := [];
    valuesSent := 0;
    var iter: u64 := 0;
    while iter < CHANNEL_TEST_ITERS as u64
      invariant 0 <= iter <= CHANNEL_TEST_ITERS
      invariant sent == SentIds()[..iter as int * MAX_BLOCKS]
      invariant valuesSent == SumIds(sent)
    {
      var numBlocks: u16 := 1;
      while numBlocks < 11
        invariant 1 <= numBlocks <= 11
        invariant sent == SentIds()[..iter as int * MAX_BLOCKS + numBlocks as int - 1]
        invariant valuesSent == SumIds(sent)
      {
        var id := PackId(iter, numBlocks);
        SendStep(iter, numBlocks);
        valuesSent := valuesSent + id;
        sent := sent + [id];
        numBlocks := numBlocks + 1;
      }
      iter := iter + 1;
    }
    assert SentIds()[..|SentIds()|] == SentIds();
  }

  /** One submission: the id sent next is the packed id of the current
      iteration and block count, and adding it keeps the sum below 2^64. */
  lemma SendStep(iter: nat, numBlocks: u16)
    requires iter < CHANNEL_TEST_ITERS && 1 <= numBlocks <= MAX_BLOCKS
    ensures var n := iter * MAX_BLOCKS + numBlocks - 1;
      SentIds()[..n + 1] == SentIds()[..n] + [PackId(iter, numBlocks)] &&
      SumIds(SentIds()[..n + 1]) == SumIds(SentIds()[..n]) + PackId(iter, numBlocks) < U64_MODULUS
  {
    var n := iter * MAX_BLOCKS + numBlocks - 1;
    assert n / MAX_BLOCKS == iter && n % MAX_BLOCKS + 1 == numBlocks;
    assert SentIds()[n] == PackId(iter, numBlocks);
    assert SentIds()[..n + 1] == SentIds()[..n] + [SentIds()[n]];
    assert SentIds()[..n + 1][..n] == SentIds()[..n];
    SentIdsBounded(n + 1);
  }

  /** Every prefix of the submitted ids sums to less than 2^64. */
  lemma SentIdsBounded(n: nat)
    requires n <= CHANNEL_TEST_ITERS * MAX_BLOCKS
    ensures SumIds(SentIds()[..n]) <= n * MAX_ID < U64_MODULUS
  {
    var ids := SentIds()[..n];
    forall i | 0 <= i < |ids|
      ensures ids[i] <= MAX_ID
    {
      assert ids[i] == PackId(i / MAX_BLOCKS, (i % MAX_BLOCKS + 1) as u16);
    }
    SumIdsBound(ids, MAX_ID);
  }

  /** The client's completion loop: `values_received` sums the completed ids
      in a `u64`. */
  method ReceiveAll(completed: seq<QueueEntry>) returns (valuesReceived: u64)
    ensures valuesReceived == SumIds(IdsOf(completed)) % U64_MODULUS
  {
    valuesReceived := 0;
    var i := 0;
    while i < |completed|
      invariant 0 <= i <= |completed|
      invariant valuesReceived == SumIds(IdsOf(completed[..i])) % U64_MODULUS
    {
      assert IdsOf(completed[..i + 1]) == IdsOf(completed[..i]) + [completed[i].id];
      assert (IdsOf(completed[..i]) + [completed[i].id])[..i] == IdsOf(completed[..i]);
      ModAddLeft(SumIds(IdsOf(completed[..i])), completed[i].id);
      valuesReceived := WrapAdd(valuesReceived, completed[i].id);
      i := i + 1;
    }
    assert completed[..i] == completed;
  }

  function IdsOf(entries: seq<QueueEntry>): (ids: seq<u64>)
    ensures |ids| == |entries| && forall i | 0 <= i < |entries| :: ids[i] == entries[i].id
  {
    seq(|entries|, i requires 0 <= i < |entries| => entries[i].id)
  }

  /** Removing one element takes exactly its value out of the sum. */
  lemma {:induction false} SumIdsRemove(ids: seq<u64>, i: nat)
    requires i < |ids|
    ensures SumIds(ids) == ids[i] + SumIds(ids[..i] + ids[i + 1..])
    decreases |ids|
  {
    var last := |ids| - 1;
    if i < last {
      SumIdsRemove(ids[..last], i);
      var rest := ids[..i] + ids[i + 1..];
      assert rest[..|rest| - 1] == ids[..last][..i] + ids[..last][i + 1..];
      assert rest[|rest| - 1] == ids[last];
    } else {
      assert ids[..i] + ids[i + 1..] == ids[..last];
    }
  }

  /** Sums do not depend on order. */
  lemma {:induction false} SumIdsPermutation(a: seq<u64>, b: seq<u64>)
    requires multiset(a) == multiset(b)
    ensures SumIds(a) == SumIds(b)
    decreases |a|
  {
    if a != [] {
      var x := a[|a| - 1];
      assert x in multiset(b);
      var i :| 0 <= i < |b| && b[i] == x;
      SumIdsRemove(b, i);
      var b' := b[..i] + b[i + 1..];
      assert b == b[..i] + [b[i]] + b[i + 1..];
      assert a == a[..|a| - 1] + [x];
      assert multiset(a) == multiset(a[..|a| - 1]) + multiset{x};
      assert multiset(b) == multiset(b[..i]) + multiset{x} + multiset(b[i + 1..]);
      assert multiset(b') == multiset(b[..i]) + multiset(b[i + 1..]);
      assert multiset(a[..|a| - 1]) == multiset(a) - multiset{x};
      assert multiset(b') == multiset(b) - multiset{x};
      SumIdsPermutation(a[..|a| - 1], b');
    } else {
      assert b == [];
    }
  }

  /** The client's final check: when every submitted entry comes back exactly
      once, in any order, `values_sent == values_received`. */
  lemma SumsAgree(completed: seq<QueueEntry>)
    requires multiset(IdsOf(completed)) == multiset(SentIds())
    ensures SumIds(IdsOf(completed)) % U64_MODULUS == SumIds(SentIds())
  {
    SumIdsPermutation(IdsOf(completed), SentIds());
    SentIdsBounded(CHANNEL_TEST_ITERS * MAX_BLOCKS);
    assert SentIds()[..CHANNEL_TEST_ITERS * MAX_BLOCKS] == SentIds();
  }
}
