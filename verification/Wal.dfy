/** The write-ahead log as bytes: appending and flushing entries, replaying any prefix that
    survived a crash, and truncating behind a checkpoint marker. */
module Wal {
  import opened Bits
  import opened Codecs

  const MAX_ENTRY: nat := 0x800_0000
  const HEADER: nat := 5
  const CHECKPOINT: nat := 8

  datatype Entry = Entry(kind: nat, data: Bytes)

  /** Entries the writer can put down: the type is a byte. */
  predicate EntryOk(e: Entry) { e.kind < 256 }

  predicate AllOk(es: seq<Entry>) { forall i :: 0 <= i < |es| ==> EntryOk(es[i]) }

  /** The size of the payload fits the header; a larger one is written modulo 2^32. */
  predicate Sized(e: Entry) { |e.data| < TWO_32 }

  predicate AllSized(es: seq<Entry>) { forall i :: 0 <= i < |es| ==> Sized(es[i]) }

  /** The reader takes a larger payload for corruption. */
  predicate Accepted(e: Entry) { |e.data| <= MAX_ENTRY }

  predicate AllAccepted(es: seq<Entry>) { forall i :: 0 <= i < |es| ==> Accepted(es[i]) }

  function EntryBytes(e: Entry): Bytes { [e.kind] + LeBytes(|e.data|, 4) + e.data }

  function Pieces(es: seq<Entry>): seq<Bytes> { seq(|es|, i requires 0 <= i < |es| => EntryBytes(es[i])) }

  function Log(es: seq<Entry>): Bytes { Join(Pieces(es)) }

  /** An entry on file: the type, the size as four bytes with the lowest first, the payload. */
  lemma EntryLayout(e: Entry)
    ensures
      var b, n := EntryBytes(e), |e.data|;
      && |b| == 5 + n && b[0] == e.kind && b[5..] == e.data
      && b[1] == n % 256 && b[2] == n / 256 % 256 && b[3] == n / 65536 % 256 && b[4] == n / 16777216 % 256
  {
    var n := |e.data|;
    var b := LeBytes(n, 4);
    assert b == [n % 256] + LeBytes(n / 256, 3);
    assert LeBytes(n / 256, 3) == [n / 256 % 256] + LeBytes(n / 256 / 256, 2);
    assert LeBytes(n / 256 / 256, 2) == [n / 256 / 256 % 256] + LeBytes(n / 256 / 256 / 256, 1);
    assert LeBytes(n / 256 / 256 / 256, 1) == [n / 256 / 256 / 256 % 256] + [];
  }

  lemma LogMore(es: seq<Entry>, e: Entry)
    ensures Log(es + [e]) == Log(es) + EntryBytes(e)
  {
    assert Pieces(es + [e]) == Pieces(es) + [EntryBytes(e)];
    JoinMore(Pieces(es), EntryBytes(e));
  }

  lemma {:induction false} LogConcat(a: seq<Entry>, b: seq<Entry>)
    ensures Log(a + b) == Log(a) + Log(b)
  {
    if b == [] {
      assert a + b == a;
    } else {
      var n := |b| - 1;
      LogConcat(a, b[..n]);
      LogMore(b[..n], b[n]);
      LogMore(a + b[..n], b[n]);
      assert a + b == a + b[..n] + [b[n]] && b == b[..n] + [b[n]];
    }
  }

  // ----- Reading -----

  datatype Next = End | TooLarge | Got(entry: Entry, pos: nat)

  /** ReadNextEntry at a file position: a short header or payload ends the log. */
  function ReadNext(file: Bytes, pos: nat): Next
    requires pos <= |file|
  {
    if |file| - pos < HEADER then End
    else
      var size := FromLe(Slice(file, pos + 1, 4));
      if size > MAX_ENTRY then TooLarge
      else if |file| - pos - HEADER < size then End
      else Got(Entry(file[pos], Slice(file, pos + HEADER, size)), pos + HEADER + size)
  }

  datatype Replayed = Ok(entries: seq<Entry>) | IOError

  function Prepend(es: seq<Entry>, r: Replayed): Replayed { if r.Ok? then Ok(es + r.entries) else r }

  /** All entries from a position on. */
  function ReplayFrom(file: Bytes, pos: nat): Replayed
    requires pos <= |file|
    decreases |file| - pos
  {
    match ReadNext(file, pos)
    case End => Ok([])
    case TooLarge => IOError
    case Got(e, next) => Prepend([e], ReplayFrom(file, next))
  }

  method CollectEntries(file: Bytes) returns (r: Replayed)
    ensures r == ReplayFrom(file, 0)
  {
    var entries: seq<Entry> := [];
    var pos := 0;
    while true
      invariant pos <= |file| && ReplayFrom(file, 0) == Prepend(entries, ReplayFrom(file, pos))
      decreases |file| - pos
    {
      match ReadNext(file, pos) {
        case End => return Ok(entries);
        case TooLarge => return IOError;
        case Got(e, next) =>
          PrependTwice(entries, e, ReplayFrom(file, next));
          entries, pos := entries + [e], next;
      }
    }
  }

  lemma PrependTwice(es: seq<Entry>, e: Entry, r: Replayed)
    ensures Prepend(es, Prepend([e], r)) == Prepend(es + [e], r)
  {
    if r.Ok? { assert es + ([e] + r.entries) == es + [e] + r.entries; }
  }

  // ----- Replay of a byte prefix -----

  /** k entries lie wholly inside the first n bytes. */
  predicate Whole(es: seq<Entry>, n: nat, k: nat) {
    k <= |es| && |Log(es[..k])| <= n && (k < |es| ==> n < |Log(es[..k + 1])|)
  }

  lemma {:induction false} WholeExists(es: seq<Entry>, n: nat) returns (k: nat)
    requires n <= |Log(es)|
    ensures Whole(es, n, k)
  {
    if n == |Log(es)| {
      k := |es|;
      assert es[..k] == es;
    } else {
      var m := |es| - 1;
      assert es == es[..m] + [es[m]];
      LogMore(es[..m], es[m]);
      if n >= |Log(es[..m])| {
        k := m;
        assert es[..k + 1] == es;
      } else {
        k := WholeExists(es[..m], n);
        assert es[..m][..m] == es[..m];
        assert k < m;
        assert es[..m][..k] == es[..k] && es[..m][..k + 1] == es[..k + 1];
      }
    }
  }

  /** Where entry j starts, and that its bytes follow. */
  lemma EntryAt(es: seq<Entry>, j: nat)
    requires j < |es|
    ensures |Log(es[..j])| + |EntryBytes(es[j])| == |Log(es[..j + 1])| <= |Log(es)|
    ensures EntryBytes(es[j]) <= Log(es)[|Log(es[..j])|..]
  {
    var pieces := Pieces(es);
    assert Log(es)[0..] == Log(es);
    PieceAt(Log(es), 0, pieces, j);
    assert Pieces(es[..j]) == pieces[..j] && Pieces(es[..j + 1]) == pieces[..j + 1];
    JoinPrefix(pieces, j + 1);
  }

  /** Reading at an entry boundary: an error as soon as the header of a large entry is there,
      the entry if all of it is there, the end if not. */
  lemma ReadAt(file: Bytes, pos: nat, e: Entry, rest: Bytes)
    requires Sized(e) && pos <= |file| && EntryBytes(e) <= rest && file[pos..] <= rest
    ensures ReadNext(file, pos) ==
      if |file| - pos < HEADER then End
      else if !Accepted(e) then TooLarge
      else if |file| - pos < |EntryBytes(e)| then End
      else Got(e, pos + |EntryBytes(e)|)
  {
    if |file| - pos >= HEADER {
      HeaderAt(file, pos, e, rest);
      if |file| - pos >= |EntryBytes(e)| {
        assert Slice(file, pos + HEADER, |e.data|) == e.data by { DataAt(file, pos, e, rest); }
      }
    }
  }

  lemma HeaderAt(file: Bytes, pos: nat, e: Entry, rest: Bytes)
    requires pos + HEADER <= |file| && EntryBytes(e) <= rest && file[pos..] <= rest
    ensures file[pos] == e.kind && FromLe(Slice(file, pos + 1, 4)) == |e.data| % TWO_32
  {
    assert file[pos] == file[pos..][0] == rest[0];
    assert Slice(file, pos + 1, 4) == rest[1..5] == LeBytes(|e.data|, 4);
    LeWraps(|e.data|);
  }

  lemma DataAt(file: Bytes, pos: nat, e: Entry, rest: Bytes)
    requires pos <= |file| && |file| - pos >= |EntryBytes(e)| && EntryBytes(e) <= rest && file[pos..] <= rest
    ensures Slice(file, pos + HEADER, |e.data|) == e.data
  {
    assert Slice(file, pos + HEADER, |e.data|) == rest[HEADER..HEADER + |e.data|] == e.data;
  }

  /** How many entries have their header inside the first n bytes, k being whole. */
  function Headers(es: seq<Entry>, n: nat, k: nat): nat
    requires Whole(es, n, k)
  {
    if k < |es| && n - |Log(es[..k])| >= HEADER then k + 1 else k
  }

  /** Reading entry j of a log cut behind n bytes. */
  lemma ReadEntry(es: seq<Entry>, n: nat, j: nat)
    requires n <= |Log(es)| && j < |es| && Sized(es[j]) && |Log(es[..j])| <= n
    ensures ReadNext(Log(es)[..n], |Log(es[..j])|) ==
      if n - |Log(es[..j])| < HEADER then End
      else if !Accepted(es[j]) then TooLarge
      else if n < |Log(es[..j + 1])| then End
      else Got(es[j], |Log(es[..j + 1])|)
  {
    var file, pos := Log(es)[..n], |Log(es[..j])|;
    EntryAt(es, j);
    assert file[pos..] <= Log(es)[pos..];
    ReadAt(file, pos, es[j], Log(es)[pos..]);
  }

  /** Entry j is whole: it comes first, then the rest. */
  lemma ReplayStep(es: seq<Entry>, n: nat, j: nat)
    requires n <= |Log(es)| && j < |es| && Sized(es[j]) && |Log(es[..j + 1])| <= n
    ensures |Log(es[..j])| <= n
    ensures ReplayFrom(Log(es)[..n], |Log(es[..j])|) ==
      if Accepted(es[j]) then Prepend([es[j]], ReplayFrom(Log(es)[..n], |Log(es[..j + 1])|)) else IOError
  {
    EntryAt(es, j);
    ReadEntry(es, n, j);
  }

  /** Entry k is not whole: the log ends, or its header is an error. */
  lemma ReplayEnd(es: seq<Entry>, n: nat, k: nat)
    requires n <= |Log(es)| && Whole(es, n, k) && AllSized(es[..Headers(es, n, k)])
    ensures ReplayFrom(Log(es)[..n], |Log(es[..k])|) ==
      if AllAccepted(es[k..Headers(es, n, k)]) then Ok([]) else IOError
  {
    if Headers(es, n, k) > k {
      assert es[..k + 1][k] == es[k];
      ReadEntry(es, n, k);
      assert es[k..Headers(es, n, k)] == [es[k]];
    } else if k == |es| {
      assert es[..k] == es;
    }
  }

  lemma {:induction false} ReplaySuffix(es: seq<Entry>, n: nat, k: nat, j: nat)
    requires n <= |Log(es)| && Whole(es, n, k) && AllSized(es[..Headers(es, n, k)]) && j <= k
    ensures |Log(es[..j])| <= n
    ensures ReplayFrom(Log(es)[..n], |Log(es[..j])|) ==
      if AllAccepted(es[j..Headers(es, n, k)]) then Ok(es[j..k]) else IOError
    decreases k - j
  {
    if j < k {
      var h := Headers(es, n, k);
      assert es[..h][j] == es[j];
      ReplaySuffix(es, n, k, j + 1);
      ReplayStep(es, n, j);
      FirstAccepted(es, j, k);
      FirstAccepted(es, j, h);
    } else {
      ReplayEnd(es, n, k);
    }
  }

  lemma FirstAccepted(es: seq<Entry>, j: nat, h: nat)
    requires j < h <= |es|
    ensures [es[j]] + es[j + 1..h] == es[j..h]
    ensures AllAccepted(es[j..h]) <==> Accepted(es[j]) && AllAccepted(es[j + 1..h])
  {
    if AllAccepted(es[j..h]) {
      assert es[j..h][0] == es[j];
      var rest := es[j + 1..h];
      forall i | 0 <= i < |rest| ensures Accepted(rest[i]) { assert es[j..h][i + 1] == rest[i]; }
    }
  }

  /** Replaying any byte prefix of a log gives exactly the entries that lie wholly inside, or
      an error exactly when the header of a payload above 128 MiB lies inside. */
  lemma PrefixReplay(es: seq<Entry>, n: nat, k: nat)
    requires n <= |Log(es)| && Whole(es, n, k) && AllSized(es[..Headers(es, n, k)])
    ensures ReplayFrom(Log(es)[..n], 0) == if AllAccepted(es[..Headers(es, n, k)]) then Ok(es[..k]) else IOError
  {
    ReplaySuffix(es, n, k, 0);
    var h := Headers(es, n, k);
    assert es[..0] == [] && es[0..k] == es[..k] && es[0..h] == es[..h];
  }

  /** Accepted entries come first, then whatever the rest of the file reads as. */
  lemma {:induction false} AcceptedFirst(es: seq<Entry>, j: nat)
    requires j <= |es| && AllAccepted(es[..j])
    ensures |Log(es[..j])| <= |Log(es)|
    ensures ReplayFrom(Log(es), 0) == Prepend(es[..j], ReplayFrom(Log(es), |Log(es[..j])|))
  {
    var file := Log(es);
    if j == 0 {
      assert Log(es[..0]) == [];
      PrependNothing(ReplayFrom(file, 0));
    } else {
      var i := j - 1;
      assert es[..j][i] == es[i] && es[..j][..i] == es[..i];
      assert forall x :: 0 <= x < i ==> es[..i][x] == es[..j][x];
      AcceptedFirst(es, i);
      EntryAt(es, i);
      assert file[..|file|] == file;
      ReplayStep(es, |file|, i);
      PrependTwice(es[..i], es[i], ReplayFrom(file, |Log(es[..j])|));
      assert es[..i] + [es[i]] == es[..j];
    }
  }

  lemma PrependNothing(r: Replayed)
    ensures Prepend([], r) == r
  {
  }

  /** What is read where entry j starts, if its payload has 2^32 bytes or more: an error, or
      an entry whose payload is cut to the size modulo 2^32. */
  lemma WrappedEntry(es: seq<Entry>, j: nat)
    requires j < |es| && !Sized(es[j])
    ensures |Log(es[..j])| <= |Log(es)|
    ensures
      var size := |es[j].data| % TWO_32;
      var pos := |Log(es[..j])|;
      ReadNext(Log(es), pos) ==
        if size > MAX_ENTRY then TooLarge else Got(Entry(es[j].kind, es[j].data[..size]), pos + HEADER + size)
  {
    var file, pos, e := Log(es), |Log(es[..j])|, es[j];
    var size := |e.data| % TWO_32;
    EntryAt(es, j);
    var rest := file[pos..];
    HeaderAt(file, pos, e, rest);
    assert Slice(file, pos + HEADER, size) == rest[HEADER..HEADER + size] == e.data[..size];
  }

  /** The first entry that is not accepted. */
  function FirstLarge(es: seq<Entry>): (j: nat)
    ensures j <= |es| && AllAccepted(es[..j]) && (j < |es| ==> !Accepted(es[j]))
  {
    if es == [] then 0
    else
      var n := |es| - 1;
      var j := FirstLarge(es[..n]);
      assert es[..n][..j] == es[..j];
      if j < n then j
      else if Accepted(es[n]) then
        assert forall i :: 0 <= i < |es| ==> Accepted(es[i]) by {
          assert forall i :: 0 <= i < n ==> es[..n][i] == es[i] && es[..j][i] == es[i];
        }
        |es|
      else n
  }

  /** The writer takes every payload of any size; a whole log replays to its entries exactly
      when none of them is above 128 MiB.  With sizes below 2^32 it replays to an error
      otherwise. */
  lemma FullReplayIff(es: seq<Entry>)
    ensures ReplayFrom(Log(es), 0) == Ok(es) <==> forall i :: 0 <= i < |es| ==> |es[i].data| <= 134217728
    ensures AllSized(es) && !AllAccepted(es) ==> ReplayFrom(Log(es), 0) == IOError
  {
    var j := FirstLarge(es);
    AcceptedFirst(es, j);
    if j == |es| {
      assert es[..j] == es;
      assert ReplayFrom(Log(es), |Log(es)|) == Ok([]);
      assert es + [] == es;
    } else if Sized(es[j]) {
      var file := Log(es);
      assert file[..|file|] == file;
      EntryAt(es, j);
      ReadEntry(es, |file|, j);
    } else {
      WrappedEntry(es, j);
      WrappedDiffers(es, j);
    }
  }

  /** A wrapped entry is never read back as it was written. */
  lemma WrappedDiffers(es: seq<Entry>, j: nat)
    requires j < |es| && !Sized(es[j]) && |Log(es[..j])| <= |Log(es)|
    requires ReplayFrom(Log(es), 0) == Prepend(es[..j], ReplayFrom(Log(es), |Log(es[..j])|))
    ensures ReplayFrom(Log(es), 0) != Ok(es)
  {
    WrappedEntry(es, j);
    var r := ReplayFrom(Log(es), 0);
    if r.Ok? {
      var size := |es[j].data| % TWO_32;
      assert r.entries[j] == Entry(es[j].kind, es[j].data[..size]);
      assert |r.entries[j].data| < |es[j].data|;
    }
  }

  /** One entry of 128 MiB and a byte makes the whole log unreadable, whatever is around it. */
  lemma LargeEntryFails(before: seq<Entry>, after: seq<Entry>)
    requires AllSized(before) && AllSized(after)
    ensures
      var large := Entry(0, seq(MAX_ENTRY + 1, _ => 0));
      EntryOk(large) && ReplayFrom(Log(before + [large] + after), 0) == IOError
  {
    var large := Entry(0, seq(MAX_ENTRY + 1, _ => 0));
    var es := before + [large] + after;
    assert es[|before|] == large && !Accepted(large);
    FullReplayIff(es);
  }

  // ----- Checkpoints -----

  /** Index behind the last checkpoint marker. */
  function ReplayStart(es: seq<Entry>): (s: nat)
    ensures s <= |es| && (s > 0 ==> es[s - 1].kind == CHECKPOINT)
    ensures forall i :: s <= i < |es| ==> es[i].kind != CHECKPOINT
  {
    if es == [] then 0
    else if es[|es| - 1].kind == CHECKPOINT then |es|
    else ReplayStart(es[..|es| - 1])
  }

  method FindReplayStart(es: seq<Entry>) returns (s: nat)
    ensures s == ReplayStart(es)
  {
    s := 0;
    for i := 0 to |es|
      invariant s == ReplayStart(es[..i])
    {
      assert es[..i + 1][..i] == es[..i];
      if es[i].kind == CHECKPOINT { s := i + 1; }
    }
    assert es[..|es|] == es;
  }

  /** The entries recovery acts on. */
  function ToReplay(es: seq<Entry>): seq<Entry> { es[ReplayStart(es)..] }

  /** Index of the last marker, zero when there is none. */
  function LastMarker(es: seq<Entry>): nat { if ReplayStart(es) == 0 then 0 else ReplayStart(es) - 1 }

  lemma StartIs(es: seq<Entry>, s: nat)
    requires s <= |es| && (s > 0 ==> es[s - 1].kind == CHECKPOINT) &&
      forall i :: s <= i < |es| ==> es[i].kind != CHECKPOINT
    ensures ReplayStart(es) == s
  {
  }

  /** Dropping what precedes the last marker leaves the entries to replay as they were. */
  lemma DropKeepsReplay(es: seq<Entry>)
    ensures ToReplay(es[LastMarker(es)..]) == ToReplay(es) && LastMarker(es[LastMarker(es)..]) == 0
  {
    var m, s := LastMarker(es), ReplayStart(es);
    StartIs(es[m..], s - m);
  }

  class WriteAheadLog {
    var file: Bytes
    var writeBuffer: Bytes
    var fileSize: nat
    var checkpointPos: nat
    ghost var flushed: seq<Entry>
    ghost var buffered: seq<Entry>

    /** Files hold the flushed entries, the buffer the others, and the checkpoint position is
        where the last marker starts. */
    ghost predicate Valid()
      reads this
    {
      && AllOk(flushed + buffered) && file == Log(flushed) && writeBuffer == Log(buffered) && fileSize == |file|
      && checkpointPos == |Log((flushed + buffered)[..LastMarker(flushed + buffered)])|
    }

    constructor ()
      ensures Valid() && flushed == [] && buffered == []
    {
      file, writeBuffer, fileSize, checkpointPos := [], [], 0, 0;
      flushed, buffered := [], [];
    }

    method AppendEntry(e: Entry)
      requires Valid() && EntryOk(e) && e.kind != CHECKPOINT
      modifies this`writeBuffer, this`buffered
      ensures Valid() && buffered == old(buffered) + [e]
    {
      LogMore(buffered, e);
      SameMarker(flushed + buffered, e);
      assert flushed + (buffered + [e]) == flushed + buffered + [e];
      writeBuffer := writeBuffer + EntryBytes(e);
      buffered := buffered + [e];
    }

    method WriteCheckpointMarker()
      requires Valid()
      modifies this`writeBuffer, this`buffered, this`checkpointPos
      ensures Valid() && buffered == old(buffered) + [MARKER] &&
        LastMarker(flushed + buffered) == |flushed| + |old(buffered)|
    {
      LogConcat(flushed, buffered);
      LogMore(buffered, MARKER);
      NewMarker(flushed + buffered);
      assert flushed + (buffered + [MARKER]) == flushed + buffered + [MARKER];
      checkpointPos := fileSize + |writeBuffer|;
      writeBuffer := writeBuffer + EntryBytes(MARKER);
      buffered := buffered + [MARKER];
    }

    /** Buffered entries reach the file, in order. */
    method Flush()
      requires Valid()
      modifies this
      ensures Valid() && flushed == old(flushed + buffered) && buffered == [] && checkpointPos == old(checkpointPos)
    {
      LogConcat(flushed, buffered);
      assert flushed + buffered + [] == flushed + buffered;
      if writeBuffer == [] {
        NoBytes(buffered);
        return;
      }
      file := file + writeBuffer;
      fileSize := fileSize + |writeBuffer|;
      writeBuffer := [];
      flushed, buffered := flushed + buffered, [];
    }

    /** Keep the file from the last marker on; a position of zero keeps nothing.  What is
        buffered stays buffered.  A marker that starts behind the end of the file, because it
        was never flushed, makes the size of the tail wrap around: the call fails and changes
        nothing. */
    method Truncate() returns (ok: bool)
      requires Valid()
      modifies this
      ensures Valid() && buffered == old(buffered) && (ok <==> old(checkpointPos) <= old(fileSize))
      ensures !ok ==> flushed == old(flushed) && checkpointPos == old(checkpointPos)
      ensures ok && old(checkpointPos) > 0 ==> old(LastMarker(flushed + buffered)) <= |old(flushed)|
      ensures ok ==> checkpointPos == 0
      ensures ok ==>
        flushed == if old(checkpointPos) == 0 then [] else old(flushed)[old(LastMarker(flushed + buffered))..]
    {
      ghost var all := flushed + buffered;
      ghost var m := LastMarker(all);
      MarkerInside(flushed, buffered);
      if checkpointPos == 0 {
        EmptiedLog(flushed, buffered);
        file, fileSize, checkpointPos := [], 0, 0;
        flushed := [];
        return true;
      }
      if checkpointPos > fileSize { return false; }
      DroppedLog(flushed, buffered);
      var tail := file[checkpointPos..];
      file := tail;
      fileSize, checkpointPos := |tail|, 0;
      flushed := flushed[m..];
      return true;
    }
  }

  /** A marker that starts inside the file, or right behind it, is flushed or the first one
      buffered. */
  lemma MarkerInside(flushed: seq<Entry>, buffered: seq<Entry>)
    ensures
      var all := flushed + buffered;
      |Log(all[..LastMarker(all)])| <= |Log(flushed)| ==> LastMarker(all) <= |flushed|
  {
    var all := flushed + buffered;
    var m, n := LastMarker(all), |flushed|;
    if m > n {
      assert all[..m] == flushed + buffered[..m - n];
      LogConcat(flushed, buffered[..m - n]);
      NoBytes(buffered[..m - n]);
    }
  }

  lemma EmptiedLog(flushed: seq<Entry>, buffered: seq<Entry>)
    requires |Log((flushed + buffered)[..LastMarker(flushed + buffered)])| == 0
    ensures AllOk(flushed + buffered) ==> AllOk([] + buffered)
    ensures |Log(([] + buffered)[..LastMarker([] + buffered)])| == 0 && Log([]) == []
  {
    var all := flushed + buffered;
    var m := LastMarker(all);
    NoBytes(all[..m]);
    assert m == 0;
    assert forall i :: 0 <= i < |buffered| ==> buffered[i] == all[|flushed| + i];
    assert [] + buffered == buffered;
    if flushed == [] {
      assert all == buffered;
    } else {
      StartIs(buffered, 0);
    }
    assert Pieces(buffered[..0]) == [] && Pieces([]) == [];
  }

  lemma DroppedLog(flushed: seq<Entry>, buffered: seq<Entry>)
    requires LastMarker(flushed + buffered) <= |flushed|
    ensures
      var all := flushed + buffered;
      var m := LastMarker(all);
      && |Log(all[..m])| <= |Log(flushed)| && Log(flushed)[|Log(all[..m])|..] == Log(flushed[m..])
      && LastMarker(flushed[m..] + buffered) == 0 && |Log((flushed[m..] + buffered)[..0])| == 0
      && (AllOk(all) ==> AllOk(flushed[m..] + buffered))
  {
    var all := flushed + buffered;
    var m := LastMarker(all);
    assert flushed == flushed[..m] + flushed[m..] && all[..m] == flushed[..m];
    LogConcat(flushed[..m], flushed[m..]);
    assert flushed[m..] + buffered == all[m..];
    DropKeepsReplay(all);
    assert Pieces(all[m..][..0]) == [];
  }

  const MARKER := Entry(CHECKPOINT, [])

  lemma SameMarker(es: seq<Entry>, e: Entry)
    requires e.kind != CHECKPOINT
    ensures LastMarker(es + [e]) == LastMarker(es) && (es + [e])[..LastMarker(es)] == es[..LastMarker(es)]
  {
    StartIs(es + [e], ReplayStart(es));
  }

  lemma NewMarker(es: seq<Entry>)
    ensures LastMarker(es + [MARKER]) == |es| && (es + [MARKER])[..|es|] == es
  {
  }

  lemma NoBytes(es: seq<Entry>)
    ensures Log(es) == [] ==> es == []
  {
    if es != [] {
      var n := |es| - 1;
      assert es == es[..n] + [es[n]];
      LogMore(es[..n], es[n]);
    }
  }

  /** What recovery acts on when k entries are whole in the first n bytes. */
  ghost function Recovered(es: seq<Entry>, n: nat, k: nat): Replayed
    requires Whole(es, n, k)
  {
    if AllAccepted(es[..Headers(es, n, k)]) then Ok(ToReplay(es[..k])) else IOError
  }

  /** After a crash that cut the file anywhere, then recovery: exactly the whole entries
      behind the last marker among them, unless a large payload's header is in the file. */
  method Recover(file: Bytes, ghost es: seq<Entry>) returns (todo: Replayed)
    requires AllSized(es) && |file| <= |Log(es)| && file == Log(es)[..|file|]
    ensures exists k: nat :: Whole(es, |file|, k) && todo == Recovered(es, |file|, k)
  {
    ghost var k := WholeExists(es, |file|);
    PrefixReplay(es, |file|, k);
    var r := CollectEntries(file);
    if r.IOError? { return r; }
    var start := FindReplayStart(r.entries);
    todo := Ok(r.entries[start..]);
  }

  /** Truncation leaves recovery unchanged exactly when the last marker does not start the
      file, or nothing is left to replay. */
  lemma TruncateKeepsRecoveryIff(es: seq<Entry>)
    ensures
      var kept := if |Log(es[..LastMarker(es)])| == 0 then [] else es[LastMarker(es)..];
      ToReplay(kept) == ToReplay(es) <==> LastMarker(es) > 0 || ToReplay(es) == []
  {
    var m := LastMarker(es);
    DropKeepsReplay(es);
    if m > 0 && |Log(es[..m])| == 0 { NoBytes(es[..m]); }
    if m == 0 { assert Pieces(es[..0]) == []; }
  }

  /** A log that starts with its marker loses what follows when it is truncated. */
  lemma MarkerFirstLosesEntry(e: Entry)
    requires e.kind != CHECKPOINT
    ensures
      var es := [MARKER, e];
      var kept := if |Log(es[..LastMarker(es)])| == 0 then [] else es[LastMarker(es)..];
      ToReplay(es) == [e] && ToReplay(kept) == []
  {
    var es := [MARKER, e];
    StartIs(es, 1);
    TruncateKeepsRecoveryIff(es);
    assert Pieces(es[..0]) == [];
  }

  lemma WholeAll(es: seq<Entry>, n: nat, k: nat)
    requires Whole(es, n, k) && n <= |Log(es)|
    ensures n == |Log(es)| <==> k == |es|
  {
    assert es[..|es|] == es;
    if k < |es| {
      EntryAt(es, k);
    }
  }

  /** Truncate empties the file and then writes the tail back.  A crash after j bytes of the
      tail leaves recovery unchanged exactly when all of them were written, or nothing was
      to be replayed anyway. */
  lemma TruncateCrashIff(es: seq<Entry>, j: nat, k: nat)
    requires LastMarker(es) > 0
    requires var tail := es[LastMarker(es)..]; j <= |Log(tail)| && Whole(tail, j, k)
    ensures
      var tail := es[LastMarker(es)..];
      ToReplay(tail[..k]) == ToReplay(es) <==> j == |Log(tail)| || ToReplay(es) == []
  {
    var m := LastMarker(es);
    var tail := es[m..];
    WholeAll(tail, j, k);
    DropKeepsReplay(es);
    StartIs(tail, 1);
    if k > 0 {
      StartIs(tail[..k], 1);
      assert ToReplay(tail[..k]) == tail[1..k] && ToReplay(es) == tail[1..];
    }
    assert tail[..|tail|] == tail;
  }

  /** A crash right after the file was emptied loses an entry that was flushed long before. */
  lemma TruncateCrashLosesEntry(a: Entry, e: Entry)
    requires e.kind != CHECKPOINT
    ensures
      var es := [a, MARKER, e];
      LastMarker(es) == 1 && Whole(es[1..], 0, 0) && ToReplay(es) == [e] && ToReplay(es[1..][..0]) == []
  {
    var es := [a, MARKER, e];
    StartIs(es, 2);
    var tail := es[1..];
    assert Pieces(tail[..0]) == [];
    assert tail[..1] == [MARKER];
    EntryAt(tail, 0);
  }
}
