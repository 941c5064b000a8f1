/** A cyclic buffer that keeps the latest values, one fewer than it has cells. */
module CycleBuffer {
  import opened Rings

  /** What an iterator that points nowhere holds. */
  const INVALID_INDEX := -1

  /** A value written to the free cell before the oldest, which was the only one, drives the oldest out. */
  lemma PushedOverOldest<T>(cells: seq<T>, w: nat, r: nat, val: T)
    requires w < |cells| && r == Wrap(w + 1, |cells|)
    ensures
      var n := |cells|;
      Ring(cells[w := val], Wrap(r + 1, n), n - 1) == LastN(Ring(cells, r, n - 1) + [val], n - 1)
  {
    var n := |cells|;
    var was, now := Ring(cells, r, n - 1) + [val], Ring(cells[w := val], Wrap(r + 1, n), n - 1);
    forall k | 0 <= k < n - 1 ensures now[k] == was[1..][k] {
      var cell := Wrap(Wrap(r + 1, n) + k, n);
      assert cell == Wrap(r + (k + 1), n);
      assert cell == w <==> k == n - 2;
    }
    assert now == was[1..];
  }

  lemma PushedWithRoom<T>(cells: seq<T>, w: nat, val: T)
    requires w < |cells|
    ensures Ring(cells[w := val], 0, w + 1) == Ring(cells, 0, w) + [val]
  {
  }

  /** How many values a ring of `n` cells holds after `length` pushes, counted up to `n`. */
  function Held(length: nat, n: nat): nat
    requires 0 < n
  {
    if length < n then length else n - 1
  }

  lemma PushedRing<T>(cells: seq<T>, w: nat, r: nat, length: nat, val: T)
    requires w < |cells| && length <= |cells|
    requires if length < |cells| then r == 0 && w == length else r == Wrap(w + 1, |cells|)
    ensures
      var n := |cells|;
      var length' := if length + 1 < n then length + 1 else n;
      var r' := if length' < n then r else Wrap(r + 1, n);
      Ring(cells[w := val], r', Held(length', n)) == LastN(Ring(cells, r, Held(length, n)) + [val], n - 1)
  {
    if length + 1 < |cells| {
      PushedWithRoom(cells, w, val);
    } else {
      PushedOverOldest(cells, w, r, val);
    }
  }

  class CycleBuffer<T(0)> {
    const data: array<T>
    var writeIndex: nat
    var readIndex: nat
    var length: nat

    ghost predicate Valid()
      reads this
    {
      var n := data.Length;
      && writeIndex < n && length <= n
      && (if length < n then readIndex == 0 && writeIndex == length else readIndex == Wrap(writeIndex + 1, n))
    }

    /** The retained values, oldest first. */
    ghost function Contents(): (s: seq<T>)
      requires Valid()
      reads this, data
    {
      Ring(data[..], readIndex, Held(length, data.Length))
    }

    /** The cell of retained value `k`. */
    function Cell(k: nat): nat
      reads this
    {
      Wrap(readIndex + k, data.Length)
    }

    constructor (n: nat)
      requires 0 < n
      ensures Valid() && fresh(data) && data.Length == n && Contents() == []
    {
      data := new T[n];
      writeIndex, readIndex, length := 0, 0, 0;
    }

    method SetCell(val: T)
      requires writeIndex < data.Length
      modifies data
      ensures data[..] == old(data[..])[writeIndex := val]
    {
      data[writeIndex] := val;
    }

    /** Where the oldest value will be after a push. */
    ghost function NextRead(): nat
      reads this
    {
      if length + 1 < data.Length then readIndex else Wrap(readIndex + 1, data.Length)
    }

    /** One cell more is in use. */
    method MoveOn()
      requires Valid()
      modifies `writeIndex, `readIndex, `length
      ensures Valid() && writeIndex == Wrap(old(writeIndex) + 1, data.Length)
      ensures length == if old(length) + 1 < data.Length then old(length) + 1 else data.Length
      ensures readIndex == old(NextRead())
    {
      var n := data.Length;
      writeIndex := if writeIndex + 1 == n then 0 else writeIndex + 1;
      length := if length + 1 < n then length + 1 else n;
      if length == n {
        readIndex := if readIndex + 1 == n then 0 else readIndex + 1;
      }
    }

    /** Pushes a value; when all cells but one are in use the oldest value goes. */
    method PushValue(val: T)
      requires Valid()
      modifies this, data
      ensures Valid()
      ensures Contents() == LastN(old(Contents()) + [val], data.Length - 1)
      ensures data[if writeIndex == 0 then data.Length - 1 else writeIndex - 1] == val && 0 < length
    {
      var n := data.Length;
      ghost var w, cells, goal := writeIndex, data[..][writeIndex := val], LastN(Contents() + [val], n - 1);
      ghost var r, held := NextRead(), Held(if length + 1 < n then length + 1 else n, n);
      assert Ring(cells, r, held) == goal by {
        PushedRing(data[..], writeIndex, readIndex, length, val);
      }
      SetCell(val);
      MoveOn();
      assert data[w] == cells[w] && data[..] == cells && readIndex == r && Held(length, n) == held;
    }

    /** The cell of the first retained value that satisfies the predicate. */
    method FindValueIndex(wanted: T -> bool) returns (found: int, ghost k: nat)
      requires Valid()
      ensures k <= |Contents()| && forall j | 0 <= j < k :: !wanted(Contents()[j])
      ensures if found == INVALID_INDEX then k == |Contents()|
              else k < |Contents()| && wanted(Contents()[k]) && found == Cell(k)
      ensures found == INVALID_INDEX <==> forall v | v in Contents() :: !wanted(v)
      ensures found != INVALID_INDEX ==> 0 <= found < data.Length && wanted(data[found]) && data[found] in Contents()
    {
      var index := readIndex;
      k := 0;
      while index != writeIndex
        invariant k <= |Contents()| && index == Cell(k) < data.Length
        invariant forall j | 0 <= j < k :: !wanted(Contents()[j])
        decreases |Contents()| - k
      {
        if wanted(data[index]) {
          return index, k;
        }
        index := if index + 1 == data.Length then 0 else index + 1;
        k := k + 1;
      }
      found := INVALID_INDEX;
    }

    /** The latest value. */
    method Last() returns (index: int)
      requires Valid()
      ensures index == INVALID_INDEX <==> length == 0
      ensures index != INVALID_INDEX ==> 0 <= index < data.Length
      ensures index != INVALID_INDEX && 1 < data.Length ==>
                Contents() != [] && data[index] == Contents()[|Contents()| - 1]
    {
      if length <= 0 {
        return INVALID_INDEX;
      }
      index := if writeIndex == 0 then data.Length - 1 else writeIndex - 1;
    }

    lemma CellOfValue(i: nat)
      requires Valid() && i <= |Contents()|
      ensures Cell(i) < data.Length && (Cell(i) == writeIndex <==> i == |Contents()|)
      ensures i < |Contents()| ==> data[Cell(i)] == Contents()[i] && Cell(i + 1) == Wrap(Cell(i) + 1, data.Length)
    {
    }

    /** Iterating from a retained value to the end visits it and all that are newer. */
    method VisitFrom(from: nat, ghost k: nat) returns (visited: seq<T>)
      requires Valid() && k <= |Contents()| && from == Cell(k)
      ensures visited == Contents()[k..]
    {
      var index := from;
      visited := [];
      ghost var i, all := k, Contents();
      CellOfValue(i);
      while index != writeIndex
        invariant k <= i <= |all| && index == Cell(i) < data.Length && (index == writeIndex <==> i == |all|)
        invariant |visited| == i - k && forall j | k <= j < i :: visited[j - k] == all[j]
        decreases |all| - i
      {
        CellOfValue(i);
        CellOfValue(i + 1);
        visited := visited + [data[index]];
        index := index + 1;
        if index >= data.Length {
          index := 0;
        }
        i := i + 1;
      }
      assert visited == all[k..];
    }
  }
}

/** Readings by sensor address: each address has its own cyclic buffer. */
module SensorStorage {
  import opened Wrappers
  import opened Rings
  import opened CycleBuffer

  const BUFFER_SIZE := 50
  const BUFFERS := 3

  /** What a missing last value is taken for. */
  const NO_VALUE := -255.0

  datatype Entry = Entry(value: real, timestamp: int)

  // ----- readings as sequences

  predicate NoRepeats(entries: seq<Entry>)
  {
    forall k | 0 < k < |entries| :: entries[k - 1].value != entries[k].value
  }

  function LastValue(entries: seq<Entry>): Option<real>
  {
    if entries == [] then None else Some(entries[|entries| - 1].value)
  }

  /** A reading is dropped when it repeats the last one, a first one when it is the missing value. */
  function Kept(entries: seq<Entry>, value: real, timestamp: int): seq<Entry>
  {
    var last := LastValue(entries);
    if (if last.Some? then last.value else NO_VALUE) == value then entries
    else LastN(entries + [Entry(value, timestamp)], BUFFER_SIZE - 1)
  }

  /** A reading is kept if it differs from the last one, and a first one unless it is -255; 49 are kept, the latest. */
  lemma ChangeIsKept(entries: seq<Entry>, value: real, timestamp: int)
    requires |entries| <= 49
    ensures
      var same := if entries == [] then value == -255.0 else value == entries[|entries| - 1].value;
      Kept(entries, value, timestamp) ==
      if same then entries else (if |entries| < 49 then entries else entries[1..]) + [Entry(value, timestamp)]
  {
    assert |entries| == 49 ==>
             (entries + [Entry(value, timestamp)])[1..] == entries[1..] + [Entry(value, timestamp)];
  }

  predicate InTime(entries: seq<Entry>)
  {
    forall j, k | 0 <= j < k < |entries| :: entries[j].timestamp <= entries[k].timestamp
  }

  function Since(entries: seq<Entry>, from: int): seq<Entry>
  {
    if entries == [] then []
    else (if entries[0].timestamp > from then [entries[0]] else []) + Since(entries[1..], from)
  }

  /** All entries from the first later one on. */
  function FromFirst(entries: seq<Entry>, from: int): seq<Entry>
  {
    if entries == [] || entries[0].timestamp > from then entries else FromFirst(entries[1..], from)
  }

  lemma {:induction false} SinceOfAll(entries: seq<Entry>, from: int)
    ensures |Since(entries, from)| <= |entries|
    ensures Since(entries, from) == entries <==> forall k | 0 <= k < |entries| :: entries[k].timestamp > from
  {
    if entries != [] {
      var rest := entries[1..];
      SinceOfAll(rest, from);
      assert forall k | 0 <= k < |rest| :: rest[k] == entries[k + 1];
      if entries[0].timestamp > from {
        assert Since(entries, from)[1..] == Since(rest, from);
      }
      if forall k | 0 <= k < |rest| :: rest[k].timestamp > from {
        forall k | 0 < k < |entries|
          ensures entries[k].timestamp > from
        {
          assert entries[k] == rest[k - 1];
        }
      }
    }
  }

  /** No reading after a later one is not later itself. */
  predicate StaysLater(entries: seq<Entry>, from: int)
  {
    forall j, k | 0 <= j < k < |entries| && entries[j].timestamp > from :: entries[k].timestamp > from
  }

  lemma StaysLaterFromHere(entries: seq<Entry>, from: int)
    requires entries != []
    ensures StaysLater(entries, from) <==>
            if entries[0].timestamp > from then forall k | 0 <= k < |entries| :: entries[k].timestamp > from
            else StaysLater(entries[1..], from)
  {
    var rest := entries[1..];
    if entries[0].timestamp <= from && StaysLater(rest, from) {
      forall j, k | 0 <= j < k < |entries| && entries[j].timestamp > from
        ensures entries[k].timestamp > from
      {
        assert rest[j - 1] == entries[j] && rest[k - 1] == entries[k];
      }
    }
  }

  /** The tail from the first later reading is the later readings exactly when none after it is earlier. */
  lemma {:induction false} FromFirstIsSince(entries: seq<Entry>, from: int)
    ensures FromFirst(entries, from) == Since(entries, from) <==> StaysLater(entries, from)
  {
    if entries != [] {
      FromFirstIsSince(entries[1..], from);
      SinceOfAll(entries, from);
      StaysLaterFromHere(entries, from);
    }
  }

  /** With timestamps that never go back, iterating visits just the readings after `from`. */
  lemma VisitedInTime(entries: seq<Entry>, from: int)
    requires InTime(entries)
    ensures FromFirst(entries, from) == Since(entries, from)
  {
    FromFirstIsSince(entries, from);
  }

  lemma {:induction false} FromFirstAt(entries: seq<Entry>, from: int, k: nat)
    requires k <= |entries| && forall j | 0 <= j < k :: entries[j].timestamp <= from
    requires k == |entries| || entries[k].timestamp > from
    ensures FromFirst(entries, from) == entries[k..]
  {
    if k != 0 {
      assert entries[1..][k - 1..] == entries[k..];
      FromFirstAt(entries[1..], from, k - 1);
    }
  }

  // ----- a whole series of readings of one address

  /** What is retained once `readings` were added, one by one. */
  function Retain(readings: seq<Entry>): seq<Entry>
  {
    if readings == [] then []
    else
      var last := readings[|readings| - 1];
      Kept(Retain(readings[..|readings| - 1]), last.value, last.timestamp)
  }

  /** Every reading that differs from the stored one before it, without any limit. */
  function Changes(readings: seq<Entry>): seq<Entry>
  {
    if readings == [] then []
    else
      var before, last := Changes(readings[..|readings| - 1]), readings[|readings| - 1];
      if (if before == [] then NO_VALUE else before[|before| - 1].value) == last.value then before else before + [last]
  }

  lemma LastNKeepsLast(s: seq<Entry>, n: nat)
    requires 0 < n
    ensures LastValue(LastN(s, n)) == LastValue(s)
  {
  }

  /** The storage holds the latest changes of a series, as many as fit. */
  lemma {:induction false} RetainedAreLatestChanges(readings: seq<Entry>)
    ensures Retain(readings) == LastN(Changes(readings), BUFFER_SIZE - 1)
  {
    if readings != [] {
      var first, last := readings[..|readings| - 1], readings[|readings| - 1];
      RetainedAreLatestChanges(first);
      LastNKeepsLast(Changes(first), BUFFER_SIZE - 1);
      LastNInTurn(Changes(first), [last], BUFFER_SIZE - 1);
      assert last == Entry(last.value, last.timestamp);
    }
  }

  lemma {:induction false} ChangesNeverRepeat(readings: seq<Entry>)
    ensures NoRepeats(Changes(readings))
  {
    if readings != [] {
      ChangesNeverRepeat(readings[..|readings| - 1]);
    }
  }

  lemma {:induction false} ChangesInTime(readings: seq<Entry>)
    requires InTime(readings)
    ensures InTime(Changes(readings))
    ensures Changes(readings) != [] ==>
              && readings != []
              && Changes(readings)[|Changes(readings)| - 1].timestamp <= readings[|readings| - 1].timestamp
  {
    if readings != [] {
      var first := readings[..|readings| - 1];
      assert InTime(first) by {
        assert forall j, k | 0 <= j < k < |first| :: first[j] == readings[j] && first[k] == readings[k];
      }
      ChangesInTime(first);
      if first != [] {
        assert readings[|readings| - 2].timestamp <= readings[|readings| - 1].timestamp;
      }
    }
  }

  /** Of a series in order of time, a reader gets the retained changes after `from`, no two neighbours alike. */
  lemma ReaderSeesLatestChanges(readings: seq<Entry>, from: int)
    requires InTime(readings)
    ensures FromFirst(Retain(readings), from) == Since(LastN(Changes(readings), BUFFER_SIZE - 1), from)
    ensures NoRepeats(Retain(readings))
  {
    RetainedAreLatestChanges(readings);
    ChangesNeverRepeat(readings);
    ChangesInTime(readings);
    VisitedInTime(Retain(readings), from);
  }

  // ----- the storage

  method NewBuffers() returns (buffers: seq<CycleBuffer<Entry>>)
    ensures |buffers| == BUFFERS && fresh(buffers) && forall b | b in buffers :: fresh(b.data)
    ensures forall i | 0 <= i < BUFFERS ::
              buffers[i].Valid() && buffers[i].data.Length == BUFFER_SIZE && buffers[i].Contents() == []
    ensures forall i, j | 0 <= i < j < BUFFERS :: buffers[i] != buffers[j] && buffers[i].data != buffers[j].data
  {
    var a := new CycleBuffer<Entry>(BUFFER_SIZE);
    var b := new CycleBuffer<Entry>(BUFFER_SIZE);
    var c := new CycleBuffer<Entry>(BUFFER_SIZE);
    buffers := [a, b, c];
  }

  class SensorStorage {
    const buffers: seq<CycleBuffer<Entry>>
    var addressMap: map<int, int>

    /** The buffers are apart, and each is in order. */
    ghost predicate BuffersValid()
      reads this, buffers
    {
      && |buffers| == BUFFERS
      && (forall i | 0 <= i < BUFFERS :: buffers[i].Valid() && buffers[i].data.Length == BUFFER_SIZE)
      && (forall i, j | 0 <= i < j < BUFFERS :: buffers[i] != buffers[j] && buffers[i].data != buffers[j].data)
    }

    ghost predicate Valid()
      reads this, buffers, set b | b in buffers :: b.data
    {
      && BuffersValid()
      && |addressMap| <= BUFFERS
      && (forall a | a in addressMap :: 0 <= addressMap[a] < |addressMap|)
      && (forall a, b | a in addressMap && b in addressMap && a != b :: addressMap[a] != addressMap[b])
      && (forall i | |addressMap| <= i < BUFFERS :: buffers[i].Contents() == [])
    }

    /** The readings retained for an address. */
    ghost function Retained(address: int): seq<Entry>
      requires Valid()
      reads this, buffers, set b | b in buffers :: b.data
    {
      if address in addressMap then buffers[addressMap[address]].Contents() else []
    }

    constructor ()
      ensures Valid() && addressMap == map[]
      ensures fresh(buffers) && forall b | b in buffers :: fresh(b.data)
    {
      var all := NewBuffers();
      buffers := all;
      addressMap := map[];
    }

    function MapAddresToIndex(address: int): int
      reads this
    {
      if address in addressMap then addressMap[address] else -1
    }

    /** The buffer of an address; a new address gets the next one, of which there must be one. */
    method AddAddres(address: int) returns (index: nat)
      requires Valid() && (address in addressMap || |addressMap| < BUFFERS)
      modifies `addressMap
      ensures Valid() && address in addressMap && index == addressMap[address] < BUFFERS
      ensures forall a :: Retained(a) == old(Retained(a))
    {
      if address in addressMap {
        return addressMap[address];
      }
      index := |addressMap|;
      addressMap := addressMap[address := index];
    }

    method GetSensorLastValue(address: int) returns (value: Option<real>)
      requires Valid()
      ensures value == LastValue(Retained(address))
    {
      var index := MapAddresToIndex(address);
      if index == -1 {
        return None;
      }
      var last := buffers[index].Last();
      if last == INVALID_INDEX {
        assert buffers[index].Contents() == [];
        return None;
      }
      value := Some(buffers[index].data[last].value);
    }

    method PushBuffer(index: nat, entry: Entry)
      requires BuffersValid() && index < BUFFERS
      modifies buffers[index], buffers[index].data
      ensures BuffersValid()
      ensures buffers[index].Contents() == LastN(old(buffers[index].Contents()) + [entry], BUFFER_SIZE - 1)
      ensures forall i | 0 <= i < BUFFERS && i != index :: buffers[i].Contents() == old(buffers[i].Contents())
    {
      forall i | 0 <= i < BUFFERS && i != index
        ensures buffers[i] != buffers[index] && buffers[i].data != buffers[index].data
      {
      }
      var buffer := buffers[index];
      buffer.PushValue(entry);
      forall i | 0 <= i < BUFFERS && i != index
        ensures buffers[i].Valid() && buffers[i].Contents() == old(buffers[i].Contents())
      {
        assert buffers[i] != buffer && buffers[i].data != buffer.data;
      }
    }

    /** A push into one buffer leaves the others alone. */
    method PushInto(index: nat, entry: Entry)
      requires Valid() && index < |addressMap|
      modifies buffers[index], buffers[index].data
      ensures Valid()
      ensures buffers[index].Contents() == LastN(old(buffers[index].Contents()) + [entry], BUFFER_SIZE - 1)
      ensures forall i | 0 <= i < BUFFERS && i != index :: buffers[i].Contents() == old(buffers[i].Contents())
    {
      PushBuffer(index, entry);
    }

    method AddSensorValue(address: int, value: real, now: int)
      requires Valid() && (address in addressMap || |addressMap| < BUFFERS)
      modifies this, buffers, set b | b in buffers :: b.data
      ensures Valid()
      ensures Retained(address) == Kept(old(Retained(address)), value, now)
      ensures forall a | a != address :: Retained(a) == old(Retained(a))
    {
      var index := AddAddres(address);
      var last := GetSensorLastValue(address);
      if (if last.Some? then last.value else NO_VALUE) == value {
        return;
      }
      label before:
      PushInto(index, Entry(value, now));
      forall a | a != address
        ensures Retained(a) == old@before(Retained(a))
      {
        if a in addressMap {
          assert addressMap[a] != index;
        }
      }
    }

    /** What a caller sees that iterates from `getSensorValues` to `getSensorValuesEnd`. */
    method ReadSince(address: int, from: int) returns (visited: seq<Entry>)
      requires Valid()
      ensures visited == FromFirst(Retained(address), from)
    {
      var index := MapAddresToIndex(address);
      if index == -1 {
        return [];
      }
      var found, k := buffers[index].FindValueIndex((e: Entry) => e.timestamp > from);
      FromFirstAt(Retained(address), from, k);
      if found == INVALID_INDEX {
        return [];
      }
      visited := buffers[index].VisitFrom(found, k);
    }
  }
}
