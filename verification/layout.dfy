/**
 * Byte layout of an archive: a 16-byte header followed by variable-length
 * records packed back to back. A record is a 20-byte entry header (size,
 * dataSize, offset, two zero words), a NUL-terminated name, optional padding,
 * then the payload at `offset` bytes from the record start.
 */
module Layout {
  import opened Bytes

  const HeaderSize: nat := 16
  const EntryHeaderSize: nat := 20
  const DefaultAlignment: nat := 64

  /** The header written by create and merge: unknown 0, header size 16, entry size 20, alignment 64. */
  function HeaderBytes(): (h: seq<byte>)
    ensures |h| == HeaderSize
  {
    LE32(0) + LE32(HeaderSize) + LE32(EntryHeaderSize) + LE32(DefaultAlignment)
  }

  function SizeField(r: seq<byte>): u32
    requires |r| >= 4
  {
    ReadU32(r, 0)
  }

  function DataSizeField(r: seq<byte>): u32
    requires |r| >= 8
  {
    ReadU32(r, 4)
  }

  function OffsetField(r: seq<byte>): u32
    requires |r| >= 12
  {
    ReadU32(r, 8)
  }

  /** The record's name, read as the C string at entry + 20. */
  function Name(r: seq<byte>): seq<byte>
    requires |r| >= EntryHeaderSize
  {
    CStrAt(r, EntryHeaderSize)
  }

  /**
   * A well-formed record: its size field is its length, its name is non-empty
   * and NUL-terminated before the payload, and the payload lies inside it.
   */
  predicate RecOk(r: seq<byte>)
  {
    |r| > EntryHeaderSize &&
    SizeField(r) == |r| &&
    1 <= |Name(r)| &&
    EntryHeaderSize + |Name(r)| < OffsetField(r) &&
    OffsetField(r) + DataSizeField(r) <= |r|
  }

  /** Every record of rs is well-formed. */
  predicate AllOk(rs: seq<seq<byte>>)
  {
    forall i | 0 <= i < |rs| :: RecOk(rs[i])
  }

  /** The payload: dataSize bytes at `offset` from the record start. */
  function Payload(r: seq<byte>): seq<byte>
    requires RecOk(r)
  {
    r[OffsetField(r) .. OffsetField(r) + DataSizeField(r)]
  }

  /** The 20-byte entry header: size, dataSize, offset and two zero words. */
  function EntryHeader(size: u32, dataSize: u32, offset: u32): (h: seq<byte>)
    ensures |h| == EntryHeaderSize
  {
    LE32(size) + LE32(dataSize) + LE32(offset) + LE32(0) + LE32(0)
  }

  /** Reading the three fields of an entry header gives the values written. */
  lemma EntryHeaderFields(size: u32, dataSize: u32, offset: u32, rest: seq<byte>)
    ensures var r := EntryHeader(size, dataSize, offset) + rest;
      SizeField(r) == size && DataSizeField(r) == dataSize && OffsetField(r) == offset
  {
    var r := EntryHeader(size, dataSize, offset) + rest;
    ReadLE32(size);
    ReadLE32(dataSize);
    ReadLE32(offset);
    assert r[0..4] == LE32(size)[0..4];
    assert r[4..8] == LE32(dataSize)[0..4];
    assert r[8..12] == LE32(offset)[0..4];
    ReadU32Slice(r, 0, LE32(size), 0);
    ReadU32Slice(r, 4, LE32(dataSize), 0);
    ReadU32Slice(r, 8, LE32(offset), 0);
  }

  /** The record `siswa_arEntryAddEx` writes: entry header, name, NUL, payload. */
  function MakeRecord(name: seq<byte>, payload: seq<byte>): (r: seq<byte>)
    requires |name| + |payload| + EntryHeaderSize + 1 < U32Limit
    ensures |r| == |payload| + |name| + 1 + EntryHeaderSize
  {
    EntryHeader(|payload| + |name| + 1 + EntryHeaderSize, |payload|, |name| + 1 + EntryHeaderSize)
    + name + [0] + payload
  }

  /** A record built from a name that does not start with NUL is well-formed. */
  lemma MakeRecordOk(name: seq<byte>, payload: seq<byte>)
    requires |name| >= 1 && name[0] != 0
    requires |name| + |payload| + EntryHeaderSize + 1 < U32Limit
    ensures RecOk(MakeRecord(name, payload))
  {
    RecordRoundTrip(name, payload);
  }

  /**
   * A record built from a non-empty name is well-formed; its size field is
   * dataSize + nameLen + 21 and its offset field nameLen + 21; reading back its
   * payload gives the payload, and for a NUL-free name its name is the name.
   */
  lemma RecordRoundTrip(name: seq<byte>, payload: seq<byte>)
    requires |name| >= 1 && name[0] != 0
    requires |name| + |payload| + EntryHeaderSize + 1 < U32Limit
    ensures var r := MakeRecord(name, payload);
      && SizeField(r) == |payload| + |name| + 1 + EntryHeaderSize == |r|
      && DataSizeField(r) == |payload|
      && OffsetField(r) == |name| + 1 + EntryHeaderSize
      && RecOk(r)
      && Payload(r) == payload
      && (NoNul(name) ==> Name(r) == name)
  {
    var r := MakeRecord(name, payload);
    var off := |name| + 1 + EntryHeaderSize;
    var h := EntryHeader(|payload| + off, |payload|, off);
    assert r == h + (name + [0] + payload);
    EntryHeaderFields(|payload| + off, |payload|, off, name + [0] + payload);
    assert r[EntryHeaderSize] == name[0];
    assert r[off - 1] == 0;
    CStrBefore(r, EntryHeaderSize, off - 1);
    assert r[off .. off + |payload|] == payload;
    if NoNul(name) {
      assert r[EntryHeaderSize .. off - 1] == name;
      CStrIs(r, EntryHeaderSize, |name|);
    }
  }

  /** The bytes of a sequence of records laid out back to back. */
  function Flatten(rs: seq<seq<byte>>): seq<byte>
  {
    if rs == [] then [] else rs[0] + Flatten(rs[1..])
  }

  lemma {:induction false} FlattenAppend(a: seq<seq<byte>>, b: seq<seq<byte>>)
    ensures Flatten(a + b) == Flatten(a) + Flatten(b)
  {
    if a == [] {
      assert a + b == b;
    } else {
      assert (a + b)[1..] == a[1..] + b;
      FlattenAppend(a[1..], b);
    }
  }

  /** The layout of a + [r] is the layout of a followed by r. */
  lemma FlattenSnoc(a: seq<seq<byte>>, r: seq<byte>)
    ensures Flatten(a + [r]) == Flatten(a) + r
  {
    FlattenAppend(a, [r]);
    assert [r][1..] == [];
    assert Flatten([r]) == r;
  }

  /** The layout from record i on starts with record i. */
  lemma FlattenFrom(rs: seq<seq<byte>>, i: nat)
    requires i < |rs|
    ensures Flatten(rs[i..]) == rs[i] + Flatten(rs[i + 1..])
  {
    assert rs[i..][1..] == rs[i + 1..];
  }

  /** Splitting the layout around record i. */
  lemma FlattenAround(rs: seq<seq<byte>>, i: nat)
    requires i < |rs|
    ensures Flatten(rs) == Flatten(rs[..i]) + (rs[i] + Flatten(rs[i + 1..]))
    ensures Flatten(rs[..i + 1]) == Flatten(rs[..i]) + rs[i]
  {
    assert rs == rs[..i] + rs[i..];
    FlattenAppend(rs[..i], rs[i..]);
    FlattenFrom(rs, i);
    assert rs[..i + 1] == rs[..i] + [rs[i]];
    FlattenSnoc(rs[..i], rs[i]);
  }

  /** Offset of record k inside an archive whose records are rs. */
  function Start(rs: seq<seq<byte>>, k: nat): nat
    requires k <= |rs|
  {
    HeaderSize + |Flatten(rs[..k])|
  }

  /** Bytes [16, len) holding p, r and q one after the other hold each of them in its place. */
  lemma ThreeParts(b: seq<byte>, len: nat, p: seq<byte>, r: seq<byte>, q: seq<byte>)
    requires HeaderSize <= len <= |b| && b[HeaderSize..len] == p + (r + q)
    ensures b[HeaderSize .. HeaderSize + |p|] == p
    ensures b[HeaderSize + |p| .. HeaderSize + |p| + |r|] == r
    ensures b[HeaderSize + |p| + |r| .. len] == q
  {
    SplitSlice(b, HeaderSize, len, p, r + q);
    SplitSlice(b, HeaderSize + |p|, len, r, q);
  }

  /** In a buffer whose bytes [16, len) are the records rs, record k starts at Start(rs, k). */
  lemma RecordBytes(buf: seq<byte>, len: nat, rs: seq<seq<byte>>, k: nat)
    requires HeaderSize <= len <= |buf| && buf[HeaderSize..len] == Flatten(rs) && k < |rs|
    ensures Start(rs, k + 1) == Start(rs, k) + |rs[k]| <= len
    ensures buf[Start(rs, k) .. Start(rs, k) + |rs[k]|] == rs[k]
  {
    FlattenAround(rs, k);
    ThreeParts(buf, len, Flatten(rs[..k]), rs[k], Flatten(rs[k + 1..]));
  }

  /**
   * In a buffer whose bytes [16, len) are the records rs, record k occupies
   * [Start(k), Start(k + 1)), and its size field is its length.
   */
  lemma RecordAt(buf: seq<byte>, len: nat, rs: seq<seq<byte>>, k: nat)
    requires HeaderSize <= len <= |buf| && buf[HeaderSize..len] == Flatten(rs) && k < |rs| && RecOk(rs[k])
    ensures Start(rs, k + 1) == Start(rs, k) + |rs[k]| <= len
    ensures buf[Start(rs, k) .. Start(rs, k + 1)] == rs[k]
    ensures ReadU32(buf, Start(rs, k)) == |rs[k]|
  {
    RecordBytes(buf, len, rs, k);
    var s := Start(rs, k);
    ReadU32Slice(buf, s, rs[k], 0);
  }

  /** The layout ends exactly at the end of the last record. */
  lemma StartOfEnd(buf: seq<byte>, len: nat, rs: seq<seq<byte>>)
    requires HeaderSize <= len <= |buf| && buf[HeaderSize..len] == Flatten(rs)
    ensures Start(rs, |rs|) == len
  {
    assert rs[..|rs|] == rs;
  }

  /** Record starts grow strictly, so the end offset belongs only to k = |rs|. */
  lemma StartMonotone(rs: seq<seq<byte>>, j: nat, k: nat)
    requires j < k <= |rs| && AllOk(rs)
    ensures Start(rs, j) < Start(rs, k)
  {
    if k == j + 1 {
      FlattenAround(rs, j);
    } else {
      StartMonotone(rs, j, k - 1);
      FlattenAround(rs, k - 1);
    }
  }

  /** A record start lies before the end of the layout exactly when a record is left. */
  lemma StartBeforeEnd(rs: seq<seq<byte>>, k: nat)
    requires k <= |rs| && AllOk(rs)
    ensures Start(rs, k) < Start(rs, |rs|) <==> k < |rs|
  {
    if k < |rs| {
      StartMonotone(rs, k, |rs|);
    }
  }

  /**
   * Removing record k: when the bytes before it are kept and the bytes after it
   * are moved down by its size, bytes [16, len - size) are the other records.
   */
  lemma RemoveLayout(before: seq<byte>, after: seq<byte>, len: nat, rs: seq<seq<byte>>, k: nat)
    requires HeaderSize <= len <= |before| && before[HeaderSize..len] == Flatten(rs) && k < |rs|
    requires Start(rs, k) + |rs[k]| <= len <= |after|
    requires after[..Start(rs, k)] == before[..Start(rs, k)]
    requires after[Start(rs, k) .. len - |rs[k]|] == before[Start(rs, k) + |rs[k]| .. len]
    ensures after[HeaderSize .. len - |rs[k]|] == Flatten(rs[..k] + rs[k + 1..])
  {
    FlattenAround(rs, k);
    FlattenAppend(rs[..k], rs[k + 1..]);
    var s := Start(rs, k);
    var r := rs[k];
    ThreeParts(before, len, Flatten(rs[..k]), r, Flatten(rs[k + 1..]));
    assert after[HeaderSize..s] == after[..s][HeaderSize..];
    assert after[HeaderSize .. len - |r|] == after[HeaderSize..s] + after[s .. len - |r|];
  }

  /** Writing record r at the end of the layout extends the layout by r. */
  lemma AppendLayout(before: seq<byte>, after: seq<byte>, len: nat, rs: seq<seq<byte>>, r: seq<byte>)
    requires HeaderSize <= len <= |before| && before[HeaderSize..len] == Flatten(rs)
    requires len + |r| <= |after| && after[..len] == before[..len] && after[len .. len + |r|] == r
    ensures after[HeaderSize .. len + |r|] == Flatten(rs + [r])
  {
    FlattenAppend(rs, [r]);
    assert Flatten([r]) == r + Flatten([]);
    assert after[HeaderSize..len] == after[..len][HeaderSize..] == before[..len][HeaderSize..];
    assert after[HeaderSize .. len + |r|] == after[HeaderSize..len] + after[len .. len + |r|];
  }

  /** Appending a record moves no record start. */
  lemma StartAppend(rs: seq<seq<byte>>, r: seq<byte>, k: nat)
    requires k <= |rs|
    ensures Start(rs + [r], k) == Start(rs, k)
  {
    assert (rs + [r])[..k] == rs[..k];
  }

  /** Removing record k moves no record start before it. */
  lemma StartRemove(rs: seq<seq<byte>>, k: nat, p: nat)
    requires p <= k < |rs|
    ensures Start(rs[..k] + rs[k + 1..], p) == Start(rs, p)
  {
    assert (rs[..k] + rs[k + 1..])[..p] == rs[..p];
  }

  lemma AllOkAppend(a: seq<seq<byte>>, b: seq<seq<byte>>)
    requires AllOk(a) && AllOk(b)
    ensures AllOk(a + b)
  {
    forall i | 0 <= i < |a + b|
      ensures RecOk((a + b)[i])
    {
      if i < |a| {
        assert (a + b)[i] == a[i];
      } else {
        assert (a + b)[i] == b[i - |a|];
      }
    }
  }

  lemma AllOkSlice(a: seq<seq<byte>>, i: nat, j: nat)
    requires AllOk(a) && i <= j <= |a|
    ensures AllOk(a[i..j])
  {
    forall x | 0 <= x < j - i
      ensures RecOk(a[i..j][x])
    {
      assert a[i..j][x] == a[i + x];
    }
  }

  /** Dropping a record keeps the others well-formed. */
  lemma RemovedOk(rs: seq<seq<byte>>, k: nat)
    requires AllOk(rs) && k < |rs|
    ensures AllOk(rs[..k] + rs[k + 1..])
  {
    var ts := rs[..k] + rs[k + 1..];
    forall i | 0 <= i < |ts|
      ensures RecOk(ts[i])
    {
      if i < k {
        assert ts[i] == rs[i];
      } else {
        assert ts[i] == rs[i + 1];
      }
    }
  }

  /**
   * Decoding the bytes after the header into records: each record's size is
   * read from its first field, and decoding fails on any record that is not
   * well-formed or does not end inside the bytes.
   */
  function Decode(s: seq<byte>): (r: Option<seq<seq<byte>>>)
    ensures r.Some? ==> AllOk(r.value) && Flatten(r.value) == s
    decreases |s|
  {
    if s == [] then Some([])
    else if |s| < 4 then None
    else
      var n := ReadU32(s, 0);
      if n > |s| || !RecOk(s[..n]) then None
      else
        match Decode(s[n..])
        case None => None
        case Some(rest) => Some([s[..n]] + rest)
  }

  /** Laying records out and decoding the bytes gives the records back. */
  lemma {:induction false} DecodeFlatten(rs: seq<seq<byte>>)
    requires AllOk(rs)
    ensures Decode(Flatten(rs)) == Some(rs)
  {
    if rs != [] {
      var s := Flatten(rs);
      var r := rs[0];
      assert s == r + Flatten(rs[1..]);
      assert s[..|r|] == r;
      ReadU32Slice(s, 0, r, 0);
      assert s[|r|..] == Flatten(rs[1..]);
      DecodeFlatten(rs[1..]);
      assert [r] + rs[1..] == rs;
    }
  }
}
