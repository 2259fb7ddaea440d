/** The Intel HEX image loader (`loadHexImpl`, main_smp.cpp). It walks the
    lines of the image and understands three record types: 00 (Data),
    01 (End Of File) and 04 (Extended Linear Address). Checksums are never
    read; other record types and lines that do not start with ':' are
    skipped. The file itself is not modelled: the loader receives the lines. */
module HexLoader {
  import opened Words
  import opened Hex
  import opened SparseMemory

  const DataRecord: U32 := 0x00
  const EndOfFile: U32 := 0x01
  const ExtendedLinearAddress: U32 := 0x04

  /** A line the loader parses: non-empty and starting with ':'. */
  predicate IsRecord(line: string)
  {
    |line| > 0 && line[0] == ':'
  }

  /** The fields of a record, each `hToI` of its characters (the checksum is ignored). */
  function ByteCount(line: string): U32
    requires |line| >= 9
  {
    HexValue(line[1..3])
  }

  function RecordAddr(line: string): U32
    requires |line| >= 9
  {
    HexValue(line[3..7])
  }

  function RecordType(line: string): U32
    requires |line| >= 9
  {
    HexValue(line[7..9])
  }

  /** The upper 16 address bits carried by an Extended Linear Address record. */
  function ExtUpper(line: string): U32
    requires |line| >= 13
  {
    HexValue(line[9..13])
  }

  /** The characters the loader reads from a line are present. The C++ reads
      a fixed number of characters per field and never checks the length. */
  predicate Readable(line: string)
  {
    IsRecord(line) ==>
      |line| >= 9 &&
      (RecordType(line) == DataRecord ==> |line| >= 9 + 2 * ByteCount(line)) &&
      (RecordType(line) == ExtendedLinearAddress ==> |line| >= 13)
  }

  predicate IsEof(line: string)
    requires Readable(line)
  {
    IsRecord(line) && RecordType(line) == EndOfFile
  }

  /** Every line up to and including the first End Of File record is readable;
      the lines after it are never looked at. */
  predicate LinesReadable(lines: seq<string>)
  {
    lines == [] || (Readable(lines[0]) && (IsEof(lines[0]) || LinesReadable(lines[1..])))
  }

  /** Data byte `i` of a data record: the two characters at 9+2i, cast to `uint8_t`. */
  function DataBytes(line: string): (data: seq<Byte>)
    requires |line| >= 9 && |line| >= 9 + 2 * ByteCount(line)
    ensures |data| == ByteCount(line)
  {
    seq(ByteCount(line), i requires 0 <= i < ByteCount(line) => HexValue(line[9 + 2 * i..11 + 2 * i]) % 0x100)
  }

  /** `(upper << 16) | addr` in `uint32_t`. */
  function Base(upper: U32, addr: U32): U32
  {
    Or32(Wrap32(upper * 0x1_0000), addr)
  }

  /** Storing `data` at base, base+1, ... (addresses wrap modulo 2^32), in order. */
  function Deposit(store: Store, base: U32, data: seq<Byte>): Store
  {
    if data == [] then store
    else Deposit(store, base, data[..|data| - 1])[Wrap32(base + |data| - 1) := data[|data| - 1]]
  }

  /** The memory after loading `lines` with `upper` as the current extended address. */
  function LoadFrom(store: Store, upper: U32, lines: seq<string>): Store
    requires LinesReadable(lines)
    decreases |lines|
  {
    if lines == [] then store
    else
      var line := lines[0];
      if !IsRecord(line) then LoadFrom(store, upper, lines[1..])
      else if RecordType(line) == DataRecord then
        LoadFrom(Deposit(store, Base(upper, RecordAddr(line)), DataBytes(line)), upper, lines[1..])
      else if RecordType(line) == ExtendedLinearAddress then LoadFrom(store, ExtUpper(line), lines[1..])
      else if RecordType(line) == EndOfFile then store
      else LoadFrom(store, upper, lines[1..])
  }

  /** The image as loaded into a fresh memory. */
  function Image(lines: seq<string>): Store
    requires LinesReadable(lines)
  {
    LoadFrom(map[], 0, lines)
  }

  /** Depositing at most 2^32 bytes: the byte at address `a` is the data byte
      at distance `a - base` (mod 2^32) when that distance is inside the data,
      and is unchanged otherwise. */
  lemma {:induction false} DepositEffect(store: Store, base: U32, data: seq<Byte>, a: U32)
    requires |data| <= Two32
    ensures Lookup(Deposit(store, base, data), a)
         == (var d := Wrap32(a - base); if d < |data| then data[d] else Lookup(store, a))
  {
    if data != [] {
      var n := |data| - 1;
      DepositEffect(store, base, data[..n], a);
      WrapDistance(a, base, n);
    }
  }

  /** With a genuine four-digit address field, `(upper << 16) | addr` is
      `(upper << 16) + addr`: the address lands inside the 64 KiB segment
      that `upper` selects. */
  lemma BaseOfSegment(upper: U32, addr: U32)
    requires addr < 0x1_0000
    ensures Base(upper, addr) == (upper % 0x1_0000) * 0x1_0000 + addr
  {
    DivMod(upper * 0x1_0000, Two32, upper / 0x1_0000, (upper % 0x1_0000) * 0x1_0000);
    Pow2Word();
    BitOrDisjoint(upper % 0x1_0000, addr, 16);
  }

  /** A data record deposits its bytes at `(upper << 16) | addr` and keeps
      the extended address it runs under for the lines after it. */
  lemma DataRecordEffect(store: Store, upper: U32, line: string, rest: seq<string>)
    requires LinesReadable([line] + rest) && IsRecord(line) && RecordType(line) == DataRecord
    ensures LinesReadable(rest)
    ensures LoadFrom(store, upper, [line] + rest)
         == LoadFrom(Deposit(store, Base(upper, RecordAddr(line)), DataBytes(line)), upper, rest)
  {
    assert ([line] + rest)[1..] == rest;
  }

  /** A data record writes data byte i at `((upper << 16) | addr) + i` and nothing else. */
  lemma DataRecordWrites(store: Store, upper: U32, line: string, a: U32)
    requires LinesReadable([line]) && IsRecord(line) && RecordType(line) == DataRecord
    ensures Lookup(LoadFrom(store, upper, [line]), a)
         == (var d := Wrap32(a - Base(upper, RecordAddr(line)));
             if d < ByteCount(line) then DataBytes(line)[d] else Lookup(store, a))
  {
    var after := Deposit(store, Base(upper, RecordAddr(line)), DataBytes(line));
    assert LoadFrom(store, upper, [line]) == LoadFrom(after, upper, []);
    DepositEffect(store, Base(upper, RecordAddr(line)), DataBytes(line), a);
  }

  /** An Extended Linear Address record writes nothing: it only replaces `upper`. */
  lemma ExtendedAddressEffect(store: Store, upper: U32, line: string, rest: seq<string>)
    requires LinesReadable([line] + rest) && IsRecord(line) && RecordType(line) == ExtendedLinearAddress
    ensures LinesReadable(rest)
    ensures LoadFrom(store, upper, [line] + rest) == LoadFrom(store, ExtUpper(line), rest)
    ensures LoadFrom(store, upper, [line]) == store
  {
    assert ([line] + rest)[1..] == rest;
  }

  /** Lines that are not records, and records of any type other than 00, 01
      and 04, leave memory and `upper` as they were. */
  lemma {:induction false} SkippedLines(store: Store, upper: U32, skipped: seq<string>, rest: seq<string>)
    requires forall k :: 0 <= k < |skipped| ==>
      !IsRecord(skipped[k]) || (|skipped[k]| >= 9 && RecordType(skipped[k]) !in {DataRecord, EndOfFile, ExtendedLinearAddress})
    requires LinesReadable(rest)
    ensures LinesReadable(skipped + rest)
    ensures LoadFrom(store, upper, skipped + rest) == LoadFrom(store, upper, rest)
  {
    if skipped == [] {
      assert skipped + rest == rest;
    } else {
      SkippedLines(store, upper, skipped[1..], rest);
      var line := skipped[0];
      assert !IsRecord(line) || (|line| >= 9 && RecordType(line) !in {DataRecord, EndOfFile, ExtendedLinearAddress});
      assert (skipped + rest)[0] == line;
      assert (skipped + rest)[1..] == skipped[1..] + rest;
    }
  }

  /** Parsing stops at the first End Of File record: whatever follows it has no effect. */
  lemma {:induction false} EofIgnoresRest(store: Store, upper: U32, before: seq<string>, eof: string, after: seq<string>)
    requires LinesReadable(before + [eof] + after)
    requires Readable(eof) && IsEof(eof)
    ensures LinesReadable(before + [eof])
    ensures LoadFrom(store, upper, before + [eof] + after) == LoadFrom(store, upper, before + [eof])
    decreases |before|
  {
    var lines, cut := before + [eof] + after, before + [eof];
    if before == [] {
      assert cut == [eof];
      assert lines == [eof] + after;
    } else {
      var line := before[0];
      assert lines[0] == line && cut[0] == line;
      assert lines[1..] == before[1..] + [eof] + after;
      assert cut[1..] == before[1..] + [eof];
      if !IsEof(line) {
        var upper' := if IsRecord(line) && RecordType(line) == ExtendedLinearAddress then ExtUpper(line) else upper;
        var store' := if IsRecord(line) && RecordType(line) == DataRecord
          then Deposit(store, Base(upper, RecordAddr(line)), DataBytes(line)) else store;
        EofIgnoresRest(store', upper', before[1..], eof, after);
      }
    }
  }

  /** `loadHexImpl`: reads the lines in order until an End Of File record. */
  method LoadHex(lines: seq<string>, mem: Memory)
    requires mem.Valid() && LinesReadable(lines)
    modifies mem
    ensures mem.Valid() && mem.Contents == LoadFrom(old(mem.Contents), 0, lines)
  {
    var upper: U32 := 0;
    var n := 0;
    while n < |lines|
      invariant 0 <= n <= |lines| && mem.Valid()
      invariant LinesReadable(lines[n..])
      invariant LoadFrom(mem.Contents, upper, lines[n..]) == LoadFrom(old(mem.Contents), 0, lines)
    {
      var line := lines[n];
      if |line| > 0 && line[0] == ':' {
        var byteCount := HToI(line[1..3]);
        var addr := HToI(line[3..7]);
        var recordType := HToI(line[7..9]);
        if recordType == 0x00 {
          var base := Or32(Wrap32(upper * 0x1_0000), addr);
          StoreData(mem, line, base, byteCount);
        } else if recordType == 0x04 {
          upper := HToI(line[9..13]);
        } else if recordType == 0x01 {
          break;
        }
      }
      assert lines[n..][1..] == lines[n + 1..];
      n := n + 1;
    }
  }

  /** The inner loop of a data record: byte i goes to base + i. */
  method StoreData(mem: Memory, line: string, base: U32, byteCount: U32)
    requires mem.Valid() && |line| >= 9 && byteCount == ByteCount(line) && |line| >= 9 + 2 * byteCount
    modifies mem
    ensures mem.Valid() && mem.Contents == Deposit(old(mem.Contents), base, DataBytes(line))
  {
    ghost var data := DataBytes(line);
    var i: U32 := 0;
    while i < byteCount
      invariant i <= byteCount && mem.Valid()
      invariant mem.Contents == Deposit(old(mem.Contents), base, data[..i])
    {
      var v := HToI(line[9 + i * 2..9 + i * 2 + 2]);
      assert data[..i + 1][..i] == data[..i];
      mem.Write(Wrap32(base + i), v % 0x100);
      i := i + 1;
    }
    assert data[..i] == data;
  }
}
