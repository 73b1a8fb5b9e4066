/**
 * The archive container: a byte buffer holding a 16-byte header and records
 * packed back to back, with a length, a capacity and a polling cursor.
 * The ghost field Records is the decoding of bytes [16, len) and Pos the
 * index of the record the cursor stands on.
 */
module Archive {
  import opened Bytes
  import opened Layout

  const IdentifierXCompression: u32 := 0xEE12F50F
  const IdentifierArl2: u32 := 0x324C5241

  datatype CompressType = CompressNone | CompressXCompression | CompressSegs

  /** The index of the first record at or after k whose name matches the query, if any. */
  function FirstMatch(rs: seq<seq<byte>>, k: nat, query: seq<byte>): (m: Option<nat>)
    requires k <= |rs| && |query| >= 1 && AllOk(rs)
    ensures m.Some? ==> k <= m.value < |rs| && NameMatches(query, Name(rs[m.value]))
    ensures m.Some? ==> forall j | k <= j < m.value :: !NameMatches(query, Name(rs[j]))
    ensures m.None? ==> forall j | k <= j < |rs| :: !NameMatches(query, Name(rs[j]))
    decreases |rs| - k
  {
    if k == |rs| then None
    else if NameMatches(query, Name(rs[k])) then Some(k)
    else FirstMatch(rs, k + 1, query)
  }

  /**
   * Where the add loop leaves its append offset after scanning from record k:
   * the end of the last record scanned, or 16 when no record was scanned.
   */
  function ScanEnd(rs: seq<seq<byte>>, k: nat): nat
    requires k <= |rs|
  {
    if k < |rs| then Start(rs, |rs|) else HeaderSize
  }

  /** `siswa_arEntryGetName`: the name starts right after the 20-byte entry header. */
  function EntryGetName(e: nat): nat
  {
    e + EntryHeaderSize
  }

  /** `siswa_arEntryGetData`: the payload starts `offset` bytes after the entry. */
  function EntryGetData(buf: seq<byte>, e: nat): nat
    requires e + 12 <= |buf|
  {
    e + ReadU32(buf, e + 8)
  }

  /** The name accessor of an entry at e holding the well-formed record r gives r's name. */
  lemma EntryName(buf: seq<byte>, e: nat, r: seq<byte>)
    requires e + |r| <= |buf| && buf[e .. e + |r|] == r && RecOk(r)
    ensures EntryGetName(e) <= |buf| && CStrAt(buf, EntryGetName(e)) == Name(r)
  {
    CStrShift(buf, e, r, EntryHeaderSize);
  }

  /** The data accessor of an entry at e holding the well-formed record r gives r's payload. */
  lemma EntryData(buf: seq<byte>, e: nat, r: seq<byte>)
    requires e + |r| <= |buf| && buf[e .. e + |r|] == r && RecOk(r)
    ensures e + 12 <= |buf| && EntryGetData(buf, e) + DataSizeField(r) <= e + |r|
    ensures buf[EntryGetData(buf, e) .. EntryGetData(buf, e) + DataSizeField(r)] == Payload(r)
  {
    SubSlice(buf, e, r, 8, 12);
    ReadU32Slice(buf, e + 8, r, 8);
    var off := OffsetField(r);
    var ds := DataSizeField(r);
    SubSlice(buf, e, r, off, off + ds);
  }

  /** In a well-formed buffer the two accessors of record k give its name and its payload. */
  lemma EntryAccessors(buf: seq<byte>, len: nat, rs: seq<seq<byte>>, k: nat)
    requires HeaderSize <= len <= |buf| && buf[HeaderSize..len] == Flatten(rs) && k < |rs| && RecOk(rs[k])
    ensures Start(rs, k) + 12 <= |buf| && EntryGetName(Start(rs, k)) <= |buf|
    ensures CStrAt(buf, EntryGetName(Start(rs, k))) == Name(rs[k])
    ensures EntryGetData(buf, Start(rs, k)) + DataSizeField(rs[k]) <= len
    ensures buf[EntryGetData(buf, Start(rs, k)) .. EntryGetData(buf, Start(rs, k)) + DataSizeField(rs[k])] == Payload(rs[k])
  {
    RecordAt(buf, len, rs, k);
    EntryName(buf, Start(rs, k), rs[k]);
    EntryData(buf, Start(rs, k), rs[k]);
  }

  /** `after` is `before` with the bytes r written at offset p. */
  predicate Placed(before: seq<byte>, after: seq<byte>, p: nat, r: seq<byte>)
  {
    |after| == |before| && p + |r| <= |before| &&
    after[..p] == before[..p] && after[p .. p + |r|] == r && after[p + |r|..] == before[p + |r|..]
  }

  /** `after` is `before` with the bytes [s + n, end) moved down to s. */
  predicate Shifted(before: seq<byte>, after: seq<byte>, s: nat, n: nat, end: nat)
  {
    |after| == |before| && s + n <= end <= |before| &&
    after[..s] == before[..s] && after[s .. end - n] == before[s + n .. end] &&
    after[end - n..] == before[end - n..]
  }

  /**
   * Appending the well-formed record r: with its bytes written at the old end
   * of the layout, the bytes [16, len + |r|) are the records followed by r, all
   * well-formed, and no record start moves.
   */
  lemma GrowLayout(before: seq<byte>, after: seq<byte>, len: nat, rs: seq<seq<byte>>, r: seq<byte>, p: nat)
    requires RecOk(r) && AllOk(rs)
    requires HeaderSize <= len && Placed(before, after, len, r) && before[HeaderSize..len] == Flatten(rs)
    ensures AllOk(rs + [r]) && after[HeaderSize .. len + |r|] == Flatten(rs + [r])
    ensures p <= |rs| ==> Start(rs + [r], p) == Start(rs, p)
  {
    AppendLayout(before, after, len, rs, r);
    AllOkAppend(rs, [r]);
    if p <= |rs| {
      StartAppend(rs, r, p);
    }
  }

  /**
   * Closing up record k: with the bytes after it moved down by its size, the
   * bytes [16, len) are the other records, all still well-formed, and the
   * records before k keep their offsets.
   */
  lemma DropLayout(before: seq<byte>, after: seq<byte>, oldLen: nat, len: nat, rs: seq<seq<byte>>, k: nat, p: nat)
    requires AllOk(rs) && k < |rs|
    requires HeaderSize <= oldLen <= |before| && before[HeaderSize..oldLen] == Flatten(rs)
    requires len + |rs[k]| == oldLen
    requires Shifted(before, after, Start(rs, k), |rs[k]|, oldLen)
    ensures AllOk(rs[..k] + rs[k + 1..]) && after[HeaderSize..len] == Flatten(rs[..k] + rs[k + 1..])
    ensures p <= k ==> Start(rs[..k] + rs[k + 1..], p) == Start(rs, p)
  {
    RemoveLayout(before, after, oldLen, rs, k);
    RemovedOk(rs, k);
    if p <= k {
      StartRemove(rs, k, p);
    }
  }

  /** `memcpy(buf + p, r, |r|)`: writes the bytes r at offset p, leaving every other byte as it was. */
  method Write(buf: array<byte>, p: nat, r: seq<byte>)
    requires p + |r| <= buf.Length
    modifies buf
    ensures Placed(old(buf[..]), buf[..], p, r)
  {
    forall j | 0 <= j < |r| {
      buf[p + j] := r[j];
    }
  }

  /**
   * The scan of `siswa_arEntryAddEx` as written starts at the caller's
   * cursor: with the cursor past the last record of a non-empty archive it
   * scans nothing, so the new record is placed at 16, over the first record
   * [16, Start(rs, 1)), instead of at the end of the layout.
   */
  lemma AddExAtEndOverwrites(rs: seq<seq<byte>>)
    requires AllOk(rs) && |rs| > 0
    ensures ScanEnd(rs, |rs|) == HeaderSize < Start(rs, 1) <= Start(rs, |rs|)
  {
    assert rs[..0] == [];
    StartMonotone(rs, 0, 1);
    if |rs| > 1 {
      StartMonotone(rs, 1, |rs|);
    }
  }

  /**
   * The scan of `siswa_arEntryAddEx` as written misses names before the
   * cursor: in an archive holding one record, with the cursor after it, the
   * record's own name is not found from the cursor although it is found
   * from the first record, so add as written accepts the duplicate that
   * the corrected add refuses.
   */
  lemma AddExMissesDuplicate(name: seq<byte>, payload: seq<byte>)
    requires |name| >= 1 && name[0] != 0 && NoNul(name)
    requires |name| + |payload| + EntryHeaderSize + 1 < U32Limit
    ensures var rs := [MakeRecord(name, payload)];
      && AllOk(rs) && FirstMatch(rs, 1, name).None? && FirstMatch(rs, 0, name) == Some(0)
  {
    var r := MakeRecord(name, payload);
    RecordRoundTrip(name, payload);
    assert Name(r) == name && RecOk(r);
    assert name[..|name|] == name;
    NameMatchesIsPrefix(name, name);
    assert NameMatches(name, Name([r][0]));
  }

  /** Record 0 of two is the only one named by query a when a does not start record 1's name. */
  lemma MatchesFirstOfTwo(a: seq<byte>, ra: seq<byte>, rb: seq<byte>)
    requires |a| >= 1 && a[0] != 0 && NoNul(a) && RecOk(ra) && RecOk(rb) && Name(ra) == a
    requires !(|a| <= |Name(rb)| && Name(rb)[..|a|] == a)
    ensures AllOk([ra, rb]) && FirstMatch([ra, rb], 1, a).None? && FirstMatch([ra, rb], 0, a) == Some(0)
  {
    var rs := [ra, rb];
    assert a[..|a|] == a;
    NameMatchesIsPrefix(a, a);
    NameMatchesIsPrefix(a, Name(rb));
    assert NameMatches(a, Name(rs[0])) && !NameMatches(a, Name(rs[1]));
    assert FirstMatch(rs, 2, a).None?;
  }

  /**
   * The same miss away from the end: with two records and the cursor on the
   * second, the first record's name is not found from the cursor, and the
   * scan ends at len, so add as written appends a second record with that
   * name at the end of a well-formed archive.
   */
  lemma AddExMissesDuplicateMid(a: seq<byte>, pa: seq<byte>, b: seq<byte>, pb: seq<byte>)
    requires |a| >= 1 && a[0] != 0 && NoNul(a) && |a| + |pa| + EntryHeaderSize + 1 < U32Limit
    requires |b| >= 1 && b[0] != 0 && NoNul(b) && |b| + |pb| + EntryHeaderSize + 1 < U32Limit
    requires !(|a| <= |b| && b[..|a|] == a)
    ensures var rs := [MakeRecord(a, pa), MakeRecord(b, pb)];
      && AllOk(rs) && FirstMatch(rs, 1, a).None? && FirstMatch(rs, 0, a) == Some(0)
      && ScanEnd(rs, 1) == Start(rs, |rs|)
  {
    RecordRoundTrip(a, pa);
    RecordRoundTrip(b, pb);
    MatchesFirstOfTwo(a, MakeRecord(a, pa), MakeRecord(b, pb));
  }

  class ArFile {
    var data: array<byte>
    var len: nat
    var cap: nat
    var compressed: CompressType
    var cur: nat
    ghost var Records: seq<seq<byte>>
    ghost var Pos: nat

    /** Bytes [16, len) are the records laid out back to back, inside the capacity. */
    ghost predicate Valid()
      reads this, data
    {
      HeaderSize <= len <= cap <= data.Length && AllOk(Records) && data[HeaderSize..len] == Flatten(Records)
    }

    /** The cursor stands at the start of record Pos, or at the end when Pos = |Records|. */
    ghost predicate CursorOk()
      reads this
    {
      Pos <= |Records| && cur == Start(Records, Pos)
    }

    /** The `size` field of the entry at offset e. */
    function EntrySize(e: nat): u32
      reads this, data
      requires e + 4 <= data.Length
    {
      ReadU32(data[..], e)
    }

    /**
     * `siswa_arMakeBufferEx`: wraps a caller's buffer of `length` used bytes and
     * `capacity` bytes in all, classifies its magic and puts the cursor on the
     * first record. The ARL2 magic is refused.
     */
    constructor MakeBuffer(buf: array<byte>, length: nat, capacity: nat)
      requires length <= capacity <= buf.Length && 4 <= buf.Length
      requires ReadU32(buf[..], 0) != IdentifierArl2
      ensures data == buf && len == length && cap == capacity && cur == HeaderSize
      ensures compressed == if ReadU32(buf[..], 0) == IdentifierXCompression then CompressXCompression else CompressNone
      ensures HeaderSize <= length && Decode(buf[HeaderSize..length]).Some? ==>
        Valid() && CursorOk() && Pos == 0 && Records == Decode(buf[HeaderSize..length]).value
    {
      data := buf;
      len := length;
      cap := capacity;
      cur := HeaderSize;
      if ReadU32(buf[..], 0) == IdentifierXCompression {
        compressed := CompressXCompression;
      } else {
        compressed := CompressNone;
      }
      Pos := 0;
      if HeaderSize <= length && Decode(buf[HeaderSize..length]).Some? {
        Records := Decode(buf[HeaderSize..length]).value;
      } else {
        Records := [];
      }
    }

    /**
     * `siswa_arCreateArContentEx`: writes the header {0, 16, 20, 64} at the
     * front of the buffer and starts an empty archive of the given capacity.
     */
    constructor CreateContent(buffer: array<byte>, capacity: nat)
      requires HeaderSize <= capacity <= buffer.Length
      modifies buffer
      ensures data == buffer && len == HeaderSize && cap == capacity
      ensures compressed == CompressNone && cur == HeaderSize
      ensures buffer[..HeaderSize] == HeaderBytes() && buffer[HeaderSize..] == old(buffer[HeaderSize..])
      ensures Valid() && CursorOk() && Records == [] && Pos == 0
    {
      var h := HeaderBytes();
      forall j | 0 <= j < HeaderSize {
        buffer[j] := h[j];
      }
      data := buffer;
      len := HeaderSize;
      cap := capacity;
      compressed := CompressNone;
      cur := HeaderSize;
      Records := [];
      Pos := 0;
      new;
      assert buffer[..HeaderSize] == h;
    }

    /** The struct copy `curAr = *src`: the same buffer, length, capacity and cursor. */
    constructor Copy(src: ArFile)
      ensures data == src.data && len == src.len && cap == src.cap
      ensures compressed == src.compressed && cur == src.cur
      ensures Records == src.Records && Pos == src.Pos
      ensures src.Valid() ==> Valid()
      ensures src.CursorOk() ==> CursorOk()
    {
      data := src.data;
      len := src.len;
      cap := src.cap;
      compressed := src.compressed;
      cur := src.cur;
      Records := src.Records;
      Pos := src.Pos;
    }

    /**
     * `siswa_arEntryPoll`: returns the entry at the cursor and advances the
     * cursor by its size; at the end returns nothing and rewinds the cursor to 16.
     */
    method Poll() returns (e: Option<nat>)
      requires Valid() && CursorOk()
      modifies this`cur, this`Pos
      ensures Valid() && CursorOk()
      ensures e.None? <==> old(Pos) == |Records|
      ensures e.None? ==> cur == HeaderSize && Pos == 0
      ensures e.Some? ==> e.value == old(cur) && Pos == old(Pos) + 1
      ensures e.Some? ==> cur == old(cur) + |Records[old(Pos)]| && cur <= len && data[old(cur) .. cur] == Records[old(Pos)]
      ensures e.Some? ==> old(cur) + 4 <= data.Length && cur == old(cur) + EntrySize(old(cur))
    {
      StartOfEnd(data[..], len, Records);
      StartBeforeEnd(Records, Pos);
      if cur >= len {
        cur := HeaderSize;
        Pos := 0;
        assert Records[..0] == [];
        return None;
      }
      RecordAt(data[..], len, Records, Pos);
      e := Some(cur);
      cur := cur + EntrySize(cur);
      Pos := Pos + 1;
    }

    /** Reads the entry at offset c, the start of record k: its bytes and where the next one starts. */
    method Peek(c: nat, ghost k: nat) returns (entry: seq<byte>)
      requires Valid() && k < |Records| && c == Start(Records, k)
      ensures entry == Records[k] && RecOk(entry)
      ensures c + |entry| == Start(Records, k + 1) <= len
    {
      RecordAt(data[..], len, Records, k);
      entry := data[c .. c + EntrySize(c)];
    }

    /**
     * The poll loop of find and add, run on a copy of the archive whose cursor
     * starts at `from` (record k0): returns the first matching entry, and the
     * end of the last entry scanned (16 when none was).
     */
    method Scan(from: nat, ghost k0: nat, query: seq<byte>) returns (hit: Option<nat>, last: nat)
      requires Valid() && |query| >= 1 && k0 <= |Records| && from == Start(Records, k0)
      ensures hit.None? <==> FirstMatch(Records, k0, query).None?
      ensures hit.Some? ==> hit.value == Start(Records, FirstMatch(Records, k0, query).value)
      ensures hit.None? ==> last == ScanEnd(Records, k0)
    {
      ghost var fm := FirstMatch(Records, k0, query);
      StartOfEnd(data[..], len, Records);
      var c := from;
      ghost var k := k0;
      last := HeaderSize;
      while c < len
        invariant k0 <= k <= |Records| && c == Start(Records, k)
        invariant fm == FirstMatch(Records, k, query)
        invariant last == if k == k0 then HeaderSize else c
        decreases |Records| - k
      {
        StartBeforeEnd(Records, k);
        var entry := Peek(c, k);
        last := c + |entry|;
        if NameMatches(query, Name(entry)) {
          return Some(c), last;
        }
        c := last;
        k := k + 1;
      }
      StartBeforeEnd(Records, k);
      hit := None;
    }

    /**
     * `siswa_arEntryFindEx`: scans from the first record, whatever the
     * caller's cursor, and returns the first entry whose name matches.
     */
    method FindEx(query: seq<byte>) returns (e: Option<nat>)
      requires Valid() && |query| >= 1
      ensures e.None? <==> FirstMatch(Records, 0, query).None?
      ensures e.Some? ==> e.value == Start(Records, FirstMatch(Records, 0, query).value)
    {
      assert Records[..0] == [];
      var last;
      e, last := Scan(HeaderSize, 0, query);
    }

    /**
     * `siswa_arEntryAddEx` as written: the duplicate scan runs on a copy of the
     * archive that keeps the caller's cursor, so it only sees the records from
     * the cursor on, and the new record goes at the end of the last record it
     * scanned, or at 16 when it scanned none. It fails on a matching name and
     * otherwise writes entry header, name, NUL and payload and grows `len`.
     */
    method AddEx(name: seq<byte>, payload: seq<byte>) returns (ok: bool)
      requires Valid() && CursorOk() && |name| >= 1
      requires |name| + |payload| + EntryHeaderSize + 1 < U32Limit
      requires FirstMatch(Records, Pos, name).None? ==>
        ScanEnd(Records, Pos) + |name| + |payload| + EntryHeaderSize + 1 < cap
      modifies this`len, this`Records, data
      ensures ok <==> FirstMatch(old(Records), Pos, name).None?
      ensures !ok ==> len == old(len) && data[..] == old(data[..]) && Records == old(Records)
      ensures ok ==> len == old(len) + |MakeRecord(name, payload)|
      ensures ok ==> Placed(old(data[..]), data[..], ScanEnd(old(Records), Pos), MakeRecord(name, payload))
      ensures ok && name[0] != 0 && ScanEnd(old(Records), Pos) == old(len) ==>
        Valid() && CursorOk() && Records == old(Records) + [MakeRecord(name, payload)]
    {
      var hit, offset := Scan(cur, Pos, name);
      if hit.Some? {
        return false;
      }
      var r := MakeRecord(name, payload);
      ghost var before := data[..];
      ghost var oldLen := len;
      Write(data, offset, r);
      len := len + |r|;
      ok := true;
      if name[0] != 0 && offset == oldLen {
        MakeRecordOk(name, payload);
        AppendRecord(r, before, oldLen);
      }
    }

    /**
     * `siswa_arEntryAddEx` with the duplicate scan started from the first
     * record, as find does: fails when any record's name matches, and
     * otherwise appends the record at `len`.
     */
    method Add(name: seq<byte>, payload: seq<byte>) returns (ok: bool)
      requires Valid() && |name| >= 1 && name[0] != 0
      requires |name| + |payload| + EntryHeaderSize + 1 < U32Limit
      requires FirstMatch(Records, 0, name).None? ==> len + |name| + |payload| + EntryHeaderSize + 1 < cap
      modifies this`len, this`Records, data
      ensures Valid()
      ensures ok <==> FirstMatch(old(Records), 0, name).None?
      ensures !ok ==> len == old(len) && data[..] == old(data[..]) && Records == old(Records)
      ensures ok ==> len == old(len) + |MakeRecord(name, payload)|
      ensures ok ==> Placed(old(data[..]), data[..], old(len), MakeRecord(name, payload))
      ensures ok ==> Records == old(Records) + [MakeRecord(name, payload)]
      ensures old(CursorOk()) ==> CursorOk()
    {
      assert Records[..0] == [];
      var hit, offset := Scan(HeaderSize, 0, name);
      if hit.Some? {
        return false;
      }
      var r := MakeRecord(name, payload);
      ghost var before := data[..];
      ghost var oldLen := len;
      Write(data, len, r);
      len := len + |r|;
      ok := true;
      MakeRecordOk(name, payload);
      AppendRecord(r, before, oldLen);
    }

    /**
     * The ghost half of an append: with the bytes of the well-formed record r
     * written at the old end of the layout and `len` grown by its size, the
     * records grow by r.
     */
    ghost method AppendRecord(r: seq<byte>, before: seq<byte>, oldLen: nat)
      requires RecOk(r) && AllOk(Records)
      requires HeaderSize <= oldLen && oldLen + |r| == len <= cap <= data.Length
      requires Placed(before, data[..], oldLen, r) && before[HeaderSize..oldLen] == Flatten(Records)
      modifies this`Records
      ensures Valid() && Records == old(Records) + [r]
      ensures old(CursorOk()) ==> CursorOk()
    {
      var old0 := Records;
      GrowLayout(before, data[..], oldLen, old0, r, Pos);
      Records := old0 + [r];
    }

    /**
     * Forgets record k once its bytes have been closed up: bytes [16, len) are
     * the other records. A cursor at or before k still points at its record.
     */
    ghost method DropRecord(k: nat, before: seq<byte>, oldLen: nat)
      requires AllOk(Records) && k < |Records|
      requires HeaderSize <= oldLen <= |before| && before[HeaderSize..oldLen] == Flatten(Records)
      requires len + |Records[k]| == oldLen && len <= cap <= data.Length
      requires Shifted(before, data[..], Start(Records, k), |Records[k]|, oldLen)
      modifies this`Records
      ensures Valid() && Records == old(Records)[..k] + old(Records)[k + 1..]
      ensures old(CursorOk()) && old(Pos) <= k ==> CursorOk()
    {
      var old0 := Records;
      DropLayout(before, data[..], oldLen, len, old0, k, Pos);
      Records := old0[..k] + old0[k + 1..];
    }

    /**
     * `memmove(data + s, data + s + n, end - s - n)`: moves the bytes [s + n, end)
     * down by n, leaving every other byte as it was.
     */
    method Close(s: nat, n: nat, end: nat)
      requires s + n <= end <= data.Length
      modifies data
      ensures Shifted(old(data[..]), data[..], s, n, end)
    {
      forall j | s <= j < end - n {
        data[j] := data[j + n];
      }
    }

    /**
     * `siswa_arEntryRemoveEx`: finds the first matching record from the start;
     * fails when there is none; otherwise shrinks `len` by the record's size
     * and moves the bytes that followed it down to its offset.
     */
    method RemoveEx(query: seq<byte>) returns (ok: bool)
      requires Valid() && |query| >= 1
      modifies this`len, this`Records, data
      ensures Valid()
      ensures ok <==> FirstMatch(old(Records), 0, query).Some?
      ensures !ok ==> len == old(len) && data[..] == old(data[..]) && Records == old(Records)
      ensures ok ==>
        var k := FirstMatch(old(Records), 0, query).value;
        && len == old(len) - |old(Records)[k]|
        && Shifted(old(data[..]), data[..], Start(old(Records), k), |old(Records)[k]|, old(len))
        && Records == old(Records)[..k] + old(Records)[k + 1..]
      ensures ok && old(CursorOk()) && old(Pos) <= FirstMatch(old(Records), 0, query).value ==> CursorOk()
      ensures !ok && old(CursorOk()) ==> CursorOk()
    {
      var e := FindEx(query);
      if e.None? {
        return false;
      }
      ghost var k := FirstMatch(Records, 0, query).value;
      ghost var before := data[..];
      RecordAt(data[..], len, Records, k);
      var offset := e.value;
      var size := EntrySize(offset);
      Close(offset, size, len);
      len := len - size;
      DropRecord(k, before, old(len));
      ok := true;
    }
  }
}
