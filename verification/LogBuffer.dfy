/** A sequence kept in a ring of cells. */
module Rings {

  /** A position at most one turn past the end of a ring of `n` cells. */
  function Wrap(p: nat, n: nat): nat
  {
    if p < n then p else p - n
  }

  /** The `count` elements from cell `start` on. */
  function Ring<T>(cells: seq<T>, start: nat, count: nat): (s: seq<T>)
    requires start < |cells| && count <= |cells|
    ensures |s| == count && forall k | 0 <= k < count :: s[k] == cells[Wrap(start + k, |cells|)]
  {
    seq(count, k requires 0 <= k < count => cells[Wrap(start + k, |cells|)])
  }

  /** The last `n` elements, or all of them. */
  function LastN<T>(s: seq<T>, n: nat): seq<T>
  {
    if |s| <= n then s else s[|s| - n..]
  }

  /** Keeping the last `n` as elements come keeps the last `n` of them all. */
  lemma LastNInTurn<T>(s: seq<T>, t: seq<T>, n: nat)
    ensures LastN(LastN(s, n) + t, n) == LastN(s + t, n)
  {
  }
}

/** The log's ring buffer: bytes not yet read, the oldest given up when there is no room. */
module LogBuffer {
  import opened Rings

  // ----- strncpy

  /** What `strncpy` leaves in a field as long as its source: after a NUL, only NULs. */
  function Padded(s: string): (r: string)
    ensures |r| == |s|
  {
    if s == "" then ""
    else if s[0] == '\0' then seq(|s|, k => '\0')
    else [s[0]] + Padded(s[1..])
  }

  /** Byte by byte: the text up to its first NUL, and NULs from there on. */
  lemma {:induction false} PaddedBytes(s: string, k: nat)
    requires k < |s|
    ensures Padded(s)[k] == if exists j :: 0 <= j < k && s[j] == '\0' then '\0' else s[k]
  {
    if 0 < k && s[0] != '\0' {
      var rest := s[1..];
      PaddedBytes(rest, k - 1);
      assert forall j | 0 < j < k :: s[j] == rest[j - 1];
      assert forall j | 0 <= j < k - 1 :: rest[j] == s[j + 1];
    }
  }

  predicate OnlyNulsAfterNul(s: string)
  {
    forall j, k | 0 <= j < k < |s| && s[j] == '\0' :: s[k] == '\0'
  }

  lemma {:induction false} KeptHasNulsLast(s: string)
    requires Padded(s) == s
    ensures OnlyNulsAfterNul(s)
  {
    if s != "" && s[0] != '\0' {
      var rest := s[1..];
      assert Padded(rest) == Padded(s)[1..] == rest;
      KeptHasNulsLast(rest);
      forall j, k | 0 <= j < k < |s| && s[j] == '\0' ensures s[k] == '\0' {
        assert rest[j - 1] == '\0' && rest[k - 1] == s[k];
      }
    }
  }

  lemma {:induction false} NulsLastAreKept(s: string)
    requires OnlyNulsAfterNul(s)
    ensures Padded(s) == s
  {
    if s != "" && s[0] != '\0' {
      NulsLastAreKept(s[1..]);
    }
  }

  /** Copying keeps the text exactly when nothing but NULs follows a NUL. */
  lemma PaddedKeepsText(s: string)
    ensures Padded(s) == s <==> OnlyNulsAfterNul(s)
  {
    if Padded(s) == s {
      KeptHasNulsLast(s);
    } else if OnlyNulsAfterNul(s) {
      NulsLastAreKept(s);
    }
  }

  /** What a put stores: the two parts around the end of the ring are copied apart. */
  function Stored(data: string, room: nat): (r: string)
    ensures |r| == |data|
  {
    if |data| <= room then Padded(data) else Padded(data[..room]) + Padded(data[room..])
  }

  lemma {:induction false} PaddedPlain(s: string)
    requires forall k | 0 <= k < |s| :: s[k] != '\0'
    ensures Padded(s) == s
  {
    if s != "" {
      PaddedPlain(s[1..]);
    }
  }

  lemma TextIsStoredAsIs(data: string, room: nat)
    requires forall k | 0 <= k < |data| :: data[k] != '\0'
    ensures Stored(data, room) == data
  {
    if |data| <= room {
      PaddedPlain(data);
    } else {
      var head, tail := data[..room], data[room..];
      PaddedPlain(head);
      PaddedPlain(tail);
      assert data == head + tail;
    }
  }

  // ----- the ring after a put

  /** Cell `p` once `s` was written from `w` on. */
  function CellAfter(cells: string, w: nat, s: string, p: nat): char
    requires w < |cells| && |s| < 2 * |cells| - w && p < |cells|
  {
    var over := w + |s| - |cells|;
    if p < over then s[|cells| - w + p]
    else if w <= p < w + |s| then s[p - w]
    else cells[p]
  }

  /** `cells` with `s` written from `w` on, around the end if need be. */
  function Written(cells: string, w: nat, s: string): (cells': string)
    requires w < |cells| && |s| < 2 * |cells| - w
    ensures |cells'| == |cells|
  {
    seq(|cells|, p requires 0 <= p < |cells| => CellAfter(cells, w, s, p))
  }

  lemma PutWithRoom(cells: string, r: nat, c: nat, s: string)
    requires r < |cells| && c + |s| <= |cells|
    requires |s| < 2 * |cells| - Wrap(r + c, |cells|)
    ensures Ring(Written(cells, Wrap(r + c, |cells|), s), r, c + |s|) == Ring(cells, r, c) + s
  {
    var all := Ring(Written(cells, Wrap(r + c, |cells|), s), r, c + |s|);
    forall k | 0 <= k < c + |s|
      ensures all[k] == (Ring(cells, r, c) + s)[k]
    {
    }
  }

  /** The cell that byte `i` of what was unread and then put ends up in. */
  lemma LandsAt(cells: string, r: nat, c: nat, s: string, i: nat)
    requires r < |cells| && c <= |cells| < c + |s| && c + |s| - |cells| <= i < c + |s|
    requires |s| < 2 * |cells| - Wrap(r + c, |cells|)
    ensures
      var n := |cells|;
      var p := r + i;
      var cell := if p < n then p else if p < 2 * n then p - n else p - 2 * n;
      cell < n && Written(cells, Wrap(r + c, n), s)[cell] == (if i < c then cells[Wrap(r + i, n)] else s[i - c])
  {
  }

  lemma PutOverOldest(cells: string, r: nat, c: nat, s: string)
    requires r < |cells| && c <= |cells| < c + |s|
    requires |s| < 2 * |cells| - Wrap(r + c, |cells|)
    ensures
      var w := Wrap(r + c, |cells|);
      var w' := Wrap(w + |s|, |cells|);
      w' < |cells| && Ring(Written(cells, w, s), w', |cells|) == LastN(Ring(cells, r, c) + s, |cells|)
  {
    var n := |cells|;
    var w' := Wrap(Wrap(r + c, n) + |s|, n);
    var unread := Ring(cells, r, c);
    var all := unread + s;
    var ring := Ring(Written(cells, Wrap(r + c, n), s), w', n);
    forall k | 0 <= k < n
      ensures ring[k] == all[|all| - n + k]
    {
      var i := |all| - n + k;
      LandsAt(cells, r, c, s, i);
      assert all[i] == if i < c then unread[i] else s[i - c];
    }
  }

  /** Where the unread bytes stand after a put, and what they are. */
  lemma PutInRing(cells: string, r: nat, c: nat, s: string)
    requires r < |cells| && c <= |cells|
    requires |s| < 2 * |cells| - Wrap(r + c, |cells|)
    ensures
      var n := |cells|;
      var start := if n < c + |s| then Wrap(Wrap(r + c, n) + |s|, n) else r;
      var count := if n < c + |s| then n else c + |s|;
      && start < n
      && Wrap(start + count, n) == Wrap(Wrap(r + c, n) + |s|, n)
      && Ring(Written(cells, Wrap(r + c, n), s), start, count) == LastN(Ring(cells, r, c) + s, n)
  {
    if |cells| < c + |s| {
      PutOverOldest(cells, r, c, s);
    } else {
      PutWithRoom(cells, r, c, s);
    }
  }

  class Buffer {
    const cells: array<char>
    var writeIndex: nat
    var readIndex: nat
    var writeCount: nat

    ghost predicate Valid()
      reads this
    {
      && writeIndex < cells.Length && readIndex < cells.Length && writeCount <= cells.Length
      && writeIndex == Wrap(readIndex + writeCount, cells.Length)
    }

    /** The bytes written and not yet read, oldest first. */
    ghost function Unread(): string
      requires Valid()
      reads this, cells
    {
      Ring(cells[..], readIndex, writeCount)
    }

    constructor (n: nat)
      requires 0 < n
      ensures Valid() && fresh(cells) && cells.Length == n && Unread() == ""
    {
      cells := new char[n];
      writeIndex, readIndex, writeCount := 0, 0, 0;
    }

    /** `strncpy` of `s` to cell `at`. */
    method Copy(at: nat, s: string)
      requires at + |s| <= cells.Length
      modifies cells
      ensures forall p | at <= p < at + |s| :: cells[p] == Padded(s)[p - at]
      ensures forall p | 0 <= p < cells.Length && !(at <= p < at + |s|) :: cells[p] == old(cells[p])
    {
      var padded := Padded(s);
      forall p | at <= p < at + |s| {
        cells[p] := padded[p - at];
      }
    }

    /** A put that does not reach past the end of the ring. */
    method WriteStraight(data: string)
      requires Valid() && writeIndex + |data| <= cells.Length
      modifies cells
      ensures cells[..] == Written(old(cells[..]), writeIndex, Padded(data))
    {
      Copy(writeIndex, data);
    }

    /** A put in two parts: up to the end of the ring, and on from its start. */
    method WriteAround(data: string)
      requires Valid() && cells.Length - writeIndex < |data| < 2 * cells.Length - writeIndex
      modifies cells
      ensures cells[..] == Written(old(cells[..]), writeIndex, Stored(data, cells.Length - writeIndex))
    {
      var remainSpace := cells.Length - writeIndex;
      ghost var was, s := cells[..], Stored(data, remainSpace);
      Copy(writeIndex, data[..remainSpace]);
      Copy(0, data[remainSpace..]);
      forall p | 0 <= p < cells.Length ensures cells[p] == CellAfter(was, writeIndex, s, p) {
        var over := |data| - remainSpace;
        if p < over {
          assert s[remainSpace + p] == Padded(data[remainSpace..])[p];
        } else if writeIndex <= p {
          assert s[p - writeIndex] == Padded(data[..remainSpace])[p - writeIndex];
        }
      }
    }

    /** The cells and the write index of a put. */
    method Write(data: string)
      requires Valid() && |data| < 2 * cells.Length - writeIndex
      modifies `writeIndex, cells
      ensures cells[..] == Written(old(cells[..]), old(writeIndex), Stored(data, cells.Length - old(writeIndex)))
      ensures writeIndex == Wrap(old(writeIndex) + |data|, cells.Length)
    {
      var remainSpace := cells.Length - writeIndex;
      if |data| <= remainSpace {
        WriteStraight(data);
        writeIndex := writeIndex + |data|;
        writeIndex := if writeIndex == cells.Length then 0 else writeIndex;
      } else {
        WriteAround(data);
        writeIndex := |data| - remainSpace;
      }
    }

    /**
      Callers pass less than twice the buffer's size, less what stands before the write index.
      Afterwards the buffer holds the last bytes that fit of what it held and what was stored.
     */
    method PutData(data: string)
      requires Valid() && |data| < 2 * cells.Length - writeIndex
      modifies this, cells
      ensures Valid()
      ensures Unread() == LastN(old(Unread()) + Stored(data, cells.Length - old(writeIndex)), cells.Length)
    {
      ghost var was, s := cells[..], Stored(data, cells.Length - writeIndex);
      ghost var r, c, n := readIndex, writeCount, cells.Length;
      Write(data);
      ghost var now := cells[..];
      ghost var start, count := if n < c + |s| then writeIndex else r, if n < c + |s| then n else c + |s|;
      ghost var goal := LastN(Ring(was, r, c) + s, n);
      assert start < n && Wrap(start + count, n) == writeIndex;
      assert Ring(now, start, count) == goal by {
        PutInRing(was, r, c, s);
      }
      writeCount := writeCount + |data|;
      if writeCount > cells.Length {
        writeCount := cells.Length;
        readIndex := writeIndex;
      }
      assert readIndex == start && writeCount == count && cells[..] == now;
    }

    predicate IsPartitioned()
      reads this
    {
      readIndex + writeCount > cells.Length
    }

    /** The unread bytes up to the end of the ring; what is read and what is left make up what there was. */
    method ReadPartition() returns (result: string)
      requires Valid()
      modifies this
      ensures Valid()
      ensures old(Unread()) == result + Unread()
      ensures old(Unread()) != "" ==> result != ""
      ensures old(IsPartitioned()) ==> !IsPartitioned()
      ensures !old(IsPartitioned()) ==> Unread() == ""
    {
      if IsPartitioned() {
        result := cells[readIndex..];
        readIndex := 0;
      } else {
        result := cells[readIndex..readIndex + writeCount];
        readIndex := writeIndex;
      }
      writeCount := writeCount - |result|;
    }
  }

  /** Two reads drain the buffer. */
  method Drain(b: Buffer) returns (text: string)
    requires b.Valid()
    modifies b
    ensures b.Valid() && b.Unread() == "" && text == old(b.Unread())
  {
    text := "";
    if b.IsPartitioned() {
      text := b.ReadPartition();
    }
    var rest := b.ReadPartition();
    text := text + rest;
  }

  // ----- any interleaving of puts and reads

  /** What happened to the buffer: bytes stored, or bytes handed to a reader. */
  datatype Event = Put(stored: string) | Read(result: string)

  /** What PutData and ReadPartition promise, on the unread bytes of a buffer of `n` cells. */
  predicate Happens(n: nat, unread: string, e: Event, unread': string)
  {
    match e
    case Put(stored) => unread' == LastN(unread + stored, n)
    case Read(result) => unread == result + unread'
  }

  ghost predicate History(n: nat, unread: seq<string>, events: seq<Event>)
  {
    && |unread| == |events| + 1 && unread[0] == ""
    && forall k | 0 <= k < |events| :: Happens(n, unread[k], events[k], unread[k + 1])
  }

  /** Everything stored during the first `k` events. */
  function Stream(events: seq<Event>, k: nat): string
    requires k <= |events|
  {
    if k == 0 then ""
    else Stream(events, k - 1) + if events[k - 1].Put? then events[k - 1].stored else ""
  }

  /** How much of the stream was read or given up. */
  function Position(unread: seq<string>, events: seq<Event>, k: nat): int
    requires k <= |events| && k < |unread|
  {
    |Stream(events, k)| - |unread[k]|
  }

  /** What happens keeps the unread bytes the end of what was stored. */
  lemma EndsAfter(n: nat, unread: string, e: Event, unread': string, stream: string)
    requires |unread| <= |stream| && |unread| <= n && unread == stream[|stream| - |unread|..]
    requires Happens(n, unread, e, unread')
    ensures
      var stream' := stream + if e.Put? then e.stored else "";
      |unread'| <= |stream'| && |unread'| <= n && unread' == stream'[|stream'| - |unread'|..]
  {
    var read := stream[..|stream| - |unread|];
    if e.Put? {
      assert stream + e.stored == read + (unread + e.stored);
    } else {
      assert stream + "" == stream == (read + e.result) + unread';
    }
  }

  /** The unread bytes are always the end of the stream, as much of it as fits. */
  lemma {:induction false} UnreadEndsStream(n: nat, unread: seq<string>, events: seq<Event>, k: nat)
    requires History(n, unread, events) && k <= |events|
    ensures |unread[k]| <= |Stream(events, k)| && |unread[k]| <= n
    ensures unread[k] == Stream(events, k)[Position(unread, events, k)..]
  {
    if k != 0 {
      UnreadEndsStream(n, unread, events, k - 1);
      EndsAfter(n, unread[k - 1], events[k - 1], unread[k], Stream(events, k - 1));
    }
  }

  /** A reader gets the stream in order, nothing twice: each read is the next stretch of it. */
  lemma ReadsFollowStream(n: nat, unread: seq<string>, events: seq<Event>, k: nat)
    requires History(n, unread, events) && k < |events|
    ensures 0 <= Position(unread, events, k) <= Position(unread, events, k + 1)
    ensures events[k].Read? ==>
              && Position(unread, events, k + 1) == Position(unread, events, k) + |events[k].result|
              && events[k].result == Stream(events, k)[Position(unread, events, k)..Position(unread, events, k + 1)]
    ensures events[k].Put? && |unread[k]| + |events[k].stored| <= n ==>
              Position(unread, events, k + 1) == Position(unread, events, k)
  {
    UnreadEndsStream(n, unread, events, k);
    UnreadEndsStream(n, unread, events, k + 1);
    assert Happens(n, unread[k], events[k], unread[k + 1]);
    if events[k].Read? {
      assert events[k].result == unread[k][..|events[k].result|];
    }
  }
}
