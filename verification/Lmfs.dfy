/** Copying a file out of the framed records of an LMFS partition. */
module Lmfs {

  import opened Words

  const BLOCK := 1024
  const DATA := 1008            // data bytes of a block, after an 8-byte header
  const RECORD := 4096          // four blocks
  const RECORD_DATA := 4032

  /** Where byte `offset` of a record's data stands in the framed record. */
  function Framed(offset: nat): nat { BLOCK * (offset / DATA) + 8 + offset % DATA }

  function Deframe(record: seq<byte>): (d: seq<byte>)
    requires |record| >= RECORD
    ensures |d| == RECORD_DATA
  {
    seq(RECORD_DATA, i requires 0 <= i < RECORD_DATA => record[Framed(i)])
  }

  predicate OnImage(image: seq<byte>, record: int) { 0 <= record && RECORD * record + RECORD <= |image| }

  function RecordData(image: seq<byte>, record: nat): seq<byte>
    requires OnImage(image, record)
  {
    Deframe(image[RECORD * record..RECORD * record + RECORD])
  }

  /** The data of the records a file map lists. */
  function MapData(image: seq<byte>, records: seq<nat>): seq<byte>
    requires forall i :: 0 <= i < |records| ==> OnImage(image, records[i])
    decreases |records|
  {
    if records == [] then [] else RecordData(image, records[0]) + MapData(image, records[1..])
  }

  lemma FramedFits(offset: nat)
    requires offset < RECORD_DATA
    ensures Framed(offset) + (DATA - offset % DATA) <= RECORD
    ensures offset + (DATA - offset % DATA) <= RECORD_DATA
    ensures (offset + (DATA - offset % DATA)) % DATA == 0
  {
    var b, o := offset / DATA, offset % DATA;
    assert offset == DATA * b + o && b <= 3;
    SameBlock(b + 1, 0);
  }

  /** Within a block, framed positions are consecutive. */
  lemma FramedNext(offset: nat, j: nat)
    requires j < DATA - offset % DATA
    ensures Framed(offset + j) == Framed(offset) + j
  {
    var b, o := offset / DATA, offset % DATA;
    assert offset == DATA * b + o;
    SameBlock(b, o + j);
  }

  lemma SameBlock(b: nat, o: nat)
    requires o < DATA
    ensures (DATA * b + o) / DATA == b && (DATA * b + o) % DATA == o
  {
  }

  /** The data of a record is 1008 bytes of each of its four 1024-byte blocks, after an
      eight-byte header. */
  lemma BlockOfRecord(image: seq<byte>, record: nat, b: nat)
    requires OnImage(image, record) && b < 4
    ensures var at := 4096 * record + 1024 * b + 8;
            RecordData(image, record)[1008 * b..1008 * b + 1008] == image[at..at + 1008]
  {
    var at := 4096 * record + 1024 * b + 8;
    var part, bytes := RecordData(image, record)[1008 * b..1008 * b + 1008], image[at..at + 1008];
    forall j | 0 <= j < 1008 ensures part[j] == bytes[j] { ByteOfRecord(image, record, b, j); }
  }

  lemma ByteOfRecord(image: seq<byte>, record: nat, b: nat, j: nat)
    requires OnImage(image, record) && b < 4 && j < 1008
    ensures RecordData(image, record)[1008 * b + j] == image[4096 * record + 1024 * b + 8 + j]
  {
    SameBlock(b, j);
    assert Framed(1008 * b + j) == 1024 * b + 8 + j;
  }

  /** A place in a record that data can be read from contiguously. */
  datatype Place = Nowhere | At(index: nat)

  class Access {
    const image: seq<byte>
    const buffer: array<byte>
    var offset: nat

    ghost predicate Valid()
      reads this
    {
      buffer.Length == 8192
    }

    /** The record in the buffer, deframed. */
    ghost function Current(): (d: seq<byte>)
      reads this, buffer
      requires Valid()
      ensures |d| == RECORD_DATA
    {
      Deframe(buffer[..])
    }

    constructor (image: seq<byte>)
      ensures Valid() && fresh(buffer) && this.image == image && offset == 0
    {
      this.image := image;
      buffer := new byte[8192];
      offset := 0;
    }

    /** read_block: a block that is not on the image leaves the buffer as it was. */
    method ReadBlock(block: int, at: nat)
      requires Valid() && at + BLOCK <= 8192
      modifies buffer
      ensures 0 <= block && BLOCK * block + BLOCK <= |image| ==>
                buffer[at..at + BLOCK] == image[BLOCK * block..BLOCK * block + BLOCK]
      ensures buffer[..at] == old(buffer[..at]) && buffer[at + BLOCK..] == old(buffer[at + BLOCK..])
    {
      if 0 <= block && BLOCK * block + BLOCK <= |image| {
        forall i | 0 <= i < BLOCK {
          buffer[at + i] := image[BLOCK * block + i];
        }
      }
    }

    method ReadRecord(record: int)
      requires Valid()
      modifies this, buffer
      ensures Valid() && offset == 0
      ensures OnImage(image, record) ==> Current() == RecordData(image, record)
    {
      offset := 0;
      for i := 0 to 4
        invariant Valid() && offset == 0
        invariant OnImage(image, record) ==>
          buffer[..BLOCK * i] == image[RECORD * record..RECORD * record + BLOCK * i]
      {
        ReadBlock(record * 4 + i, BLOCK * i);
        if OnImage(image, record) {
          var from := RECORD * record;
          SliceGrows(buffer[..], 0, BLOCK * i, BLOCK);
          SliceGrows(image, from, BLOCK * i, BLOCK);
        }
      }
      if OnImage(image, record) {
        SameDeframed(buffer[..], image[RECORD * record..RECORD * record + RECORD]);
      }
    }

    lemma SliceGrows(s: seq<byte>, from: nat, n: nat, k: nat)
      requires from + n + k <= |s|
      ensures s[from..from + n + k] == s[from..from + n] + s[from + n..from + n + k]
    {
    }

    lemma SameDeframed(a: seq<byte>, b: seq<byte>)
      requires |a| >= RECORD && |b| == RECORD && a[..RECORD] == b
      ensures Deframe(a) == Deframe(b)
    {
      forall i | 0 <= i < RECORD_DATA ensures a[Framed(i)] == b[Framed(i)] {
        FramedFits(i);
        assert a[Framed(i)] == a[..RECORD][Framed(i)];
      }
    }

    /** ensure_access. The program gives up on offsets past the record. */
    method EnsureAccess(at: nat, size: nat) returns (p: nat)
      requires Valid() && at < RECORD_DATA
      modifies `offset
      ensures Valid() && offset == at
      ensures size <= DATA - at % DATA ==> p == Framed(at)
    {
      var block, within := at / DATA, at % DATA;
      if DATA - within < size {
        block, within := block + 1, 0;
      }
      offset := at;
      p := BLOCK * block + 8 + within;
    }

    /** advance_access: past the end there is nowhere to point; a rest of the block
        shorter than the step just made is skipped. */
    method AdvanceAccess(size: nat) returns (p: Place)
      requires Valid() && size <= DATA && offset < RECORD_DATA && size <= DATA - offset % DATA
      modifies `offset
      ensures Valid() && offset <= RECORD_DATA
      ensures var next := old(offset) + size;
              offset == if next < RECORD_DATA && DATA - next % DATA < size then DATA * (next / DATA + 1) else next
      ensures p.At? ==> offset < RECORD_DATA && p.index == Framed(offset)
      ensures p.Nowhere? <==> offset == RECORD_DATA
    {
      FramedFits(offset);
      ghost var b0, o0 := offset / DATA, offset % DATA;
      offset := offset + size;
      if o0 + size == DATA { SameBlock(b0 + 1, 0); } else { SameBlock(b0, o0 + size); }
      var block, within := offset / DATA, offset % DATA;
      if block > 3 {
        return Nowhere;
      }
      if DATA - within < size {
        block, within := block + 1, 0;
        offset := DATA * block;
        SameBlock(block, 0);
        if block == 4 {
          return Nowhere;
        }
      }
      p := At(BLOCK * block + 8 + within);
    }

    method RemainingAccess() returns (left: nat)
      requires Valid()
      ensures left == DATA - offset % DATA
    {
      left := DATA - offset % DATA;
    }

    /** The copy loop of show_file: record 0 is in the buffer, the file's data starts
        at `start`, and `blocks` holds the file map, followed by whatever the array
        held before. */
    method CopyFile(byteLength: nat, start: nat, blocks: seq<int>, ghost records: seq<nat>) returns (out: seq<byte>)
      requires Valid() && start < RECORD_DATA
      requires |blocks| == 64 && |records| < 64
      requires forall i :: 0 <= i < |records| ==> blocks[i] == records[i] && OnImage(image, records[i])
      requires byteLength <= |Current()[start..] + MapData(image, records)|
      modifies this, buffer
      ensures Valid()
      ensures out == (old(Current())[start..] + MapData(image, records))[..byteLength]
    {
      hide Framed, MapData, Deframe, RecordData, Ahead;
      assert records[0..] == records;
      ghost var all := Current()[start..] + MapData(image, records);
      var bl: int, n := byteLength, 0;
      out := [];
      FromStart(Current(), start, MapData(image, records));
      var p := EnsureAccess(start, 0);
      while true
        invariant Valid() && 0 <= n <= |records| && offset < RECORD_DATA && p == Framed(offset)
        invariant bl >= 0 && bl + |out| == byteLength
        invariant Ahead(out, Current(), offset, MapData(image, records[n..]), all)
        decreases bl
      {
        var left := RemainingAccess();
        var use := if bl < left then bl else left;
        ghost var offset0, current, later := offset, Current(), MapData(image, records[n..]);
        CopiedPart(buffer[..], offset, use);
        SplitRest(out, current, offset, use, later, all);
        out := out + buffer[p..p + use];
        bl := bl - use;
        assert out == all[..|out|] && Ahead(out, current, offset0 + use, later, all);
        var place := AdvanceAccess(use);
        if place.At? {
          p := place.index;
        }
        assert bl > 0 ==> offset == offset0 + use && Current() == current;
        if RECORD_DATA - offset == 0 {
          MoreRecords(n, records);
          if bl > 0 { NothingLeft(out, current, later, all); }
          p := NextRecord(blocks[n]);
          n := n + 1;
          if bl > 0 { FromNext(out, Current(), MapData(image, records[n..]), later, all); }
        }
        if bl <= 0 {
          break;
        }
      }
    }

    method NextRecord(record: int) returns (p: nat)
      requires Valid()
      modifies this, buffer
      ensures Valid() && offset == 0 && p == Framed(0)
      ensures OnImage(image, record) ==> Current() == RecordData(image, record)
    {
      ReadRecord(record);
      p := EnsureAccess(0, 0);
    }

    /** Data still wanted after the records so far must come from another one. */
    lemma MoreRecords(n: nat, records: seq<nat>)
      requires n <= |records| && forall i :: 0 <= i < |records| ==> OnImage(image, records[i])
      ensures n < |records| ==>
                MapData(image, records[n..]) == RecordData(image, records[n]) + MapData(image, records[n + 1..])
      ensures n == |records| ==> MapData(image, records[n..]) == []
    {
      if n < |records| { assert records[n..][1..] == records[n + 1..]; }
    }
  }

  /** What is written, what the current record still holds and what follows are the whole. */
  predicate Ahead(out: seq<byte>, current: seq<byte>, offset: nat, later: seq<byte>, all: seq<byte>) {
    offset <= |current| && out + current[offset..] + later == all
  }

  lemma FromStart(current: seq<byte>, start: nat, later: seq<byte>)
    requires start <= |current|
    ensures Ahead([], current, start, later, current[start..] + later)
  {
  }

  /** At the end of a record with bytes still wanted, more data follows. */
  lemma NothingLeft(out: seq<byte>, current: seq<byte>, later: seq<byte>, all: seq<byte>)
    requires |current| == RECORD_DATA && Ahead(out, current, RECORD_DATA, later, all) && |out| < |all|
    ensures out + later == all && later != []
  {
    assert current[RECORD_DATA..] == [];
  }

  lemma FromNext(out: seq<byte>, current: seq<byte>, rest: seq<byte>, later: seq<byte>, all: seq<byte>)
    requires out + later == all && later == current + rest
    ensures Ahead(out, current, 0, rest, all)
  {
  }

  lemma SplitRest(out: seq<byte>, current: seq<byte>, offset: nat, use: nat, later: seq<byte>, all: seq<byte>)
    requires offset + use <= |current| && Ahead(out, current, offset, later, all)
    ensures var part := current[offset..][..use];
            && Ahead(out + part, current, offset + use, later, all)
            && out + part == all[..|out| + use]
  {
    assert current[offset..] == current[offset..][..use] + current[offset + use..];
  }

  lemma CopiedPart(buffer: seq<byte>, offset: nat, use: nat)
    requires |buffer| == 8192 && offset < RECORD_DATA && use <= DATA - offset % DATA
    ensures offset + use <= RECORD_DATA && Framed(offset) + use <= |buffer|
    ensures buffer[Framed(offset)..Framed(offset) + use] == Deframe(buffer)[offset..][..use]
  {
    FramedFits(offset);
    var part, data := buffer[Framed(offset)..Framed(offset) + use], Deframe(buffer)[offset..][..use];
    forall j | 0 <= j < use ensures part[j] == data[j] {
      FramedNext(offset, j);
    }
  }
}
