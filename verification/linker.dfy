/**
 * The ARL linker container: the magic "ARL2", the number of archives, one
 * `uint32_t` size per archive, then the linked names, each a length byte
 * followed by that many name bytes without a terminator.
 */
module Linker {
  import opened Bytes
  import Archive

  /** The 8 bytes of the header that come before the size array. */
  const ArlFixedSize: nat := 8

  /** The bytes of a size array, each size little-endian. */
  function LE32s(sizes: seq<u32>): (s: seq<byte>)
    ensures |s| == 4 * |sizes|
  {
    if sizes == [] then [] else LE32(sizes[0]) + LE32s(sizes[1..])
  }

  /**
   * The header `siswa_arlCreate` writes for the archive sizes: the magic, the
   * count truncated to the 32-bit `archiveCount` field, then the sizes.
   */
  function ArlHeader(sizes: seq<u32>): (h: seq<byte>)
    ensures |h| == ArlFixedSize + 4 * |sizes|
  {
    LE32(Archive.IdentifierArl2) + LE32(|sizes| % U32Limit) + LE32s(sizes)
  }

  /** The sizes read back from the header's size array of `count` entries. */
  function ReadSizes(s: seq<byte>, count: nat): (sizes: seq<u32>)
    requires ArlFixedSize + 4 * count <= |s|
    ensures |sizes| == count
  {
    seq(count, i requires 0 <= i < count => ReadU32(s, ArlFixedSize + 4 * i))
  }

  /** The i-th size sits at bytes [4i, 4i + 4) of the size array. */
  lemma {:induction false} LE32sAt(sizes: seq<u32>, i: nat)
    requires i < |sizes|
    ensures LE32s(sizes)[4 * i .. 4 * i + 4] == LE32(sizes[i])
  {
    if i > 0 {
      LE32sAt(sizes[1..], i - 1);
      assert LE32s(sizes)[4 * i .. 4 * i + 4] == LE32s(sizes[1..])[4 * (i - 1) .. 4 * (i - 1) + 4];
    }
  }

  /**
   * Reading the header written for `sizes`: the magic is ARL2, the count is
   * the number of sizes modulo 2^32, and the size array gives back the sizes.
   */
  lemma ArlHeaderRoundTrip(sizes: seq<u32>)
    ensures ReadU32(ArlHeader(sizes), 0) == Archive.IdentifierArl2
    ensures ReadU32(ArlHeader(sizes), 4) == |sizes| % U32Limit
    ensures ReadSizes(ArlHeader(sizes), |sizes|) == sizes
  {
    var h := ArlHeader(sizes);
    var n: u32 := |sizes| % U32Limit;
    ReadLE32(Archive.IdentifierArl2);
    ReadLE32(n);
    assert h[0..4] == LE32(Archive.IdentifierArl2)[0..4];
    assert h[4..8] == LE32(n)[0..4];
    ReadU32Slice(h, 0, LE32(Archive.IdentifierArl2), 0);
    ReadU32Slice(h, 4, LE32(n), 0);
    forall i | 0 <= i < |sizes|
      ensures ReadSizes(h, |sizes|)[i] == sizes[i]
    {
      LE32sAt(sizes, i);
      ReadLE32(sizes[i]);
      assert h[ArlFixedSize + 4 * i .. ArlFixedSize + 4 * i + 4] == LE32s(sizes)[4 * i .. 4 * i + 4];
      ReadU32Slice(h, ArlFixedSize + 4 * i, LE32(sizes[i]), 0);
    }
  }

  /** A name a linker entry can hold: its length fits the `uint8_t` length byte. */
  predicate ShortName(name: seq<byte>)
  {
    |name| < 256
  }

  /** The bytes of linker entries: each name's length byte, then its bytes. */
  function EncodeNames(names: seq<seq<byte>>): seq<byte>
    requires forall i | 0 <= i < |names| :: ShortName(names[i])
  {
    if names == [] then []
    else
      assert ShortName(names[0]);
      [|names[0]| as byte] + names[0] + EncodeNames(names[1..])
  }

  /** Splits linker entry bytes back into names; None when an entry runs past the end. */
  function DecodeNames(s: seq<byte>): (r: Option<seq<seq<byte>>>)
    ensures r.Some? ==> forall i | 0 <= i < |r.value| :: ShortName(r.value[i])
    decreases |s|
  {
    if s == [] then Some([])
    else if 1 + s[0] as nat > |s| then None
    else match DecodeNames(s[1 + s[0] as nat..])
      case None => None
      case Some(rest) => Some([s[1 .. 1 + s[0] as nat]] + rest)
  }

  /** Decoding the entries written for a list of short names gives the names back. */
  lemma {:induction false} DecodeEncodeNames(names: seq<seq<byte>>)
    requires forall i | 0 <= i < |names| :: ShortName(names[i])
    ensures DecodeNames(EncodeNames(names)) == Some(names)
  {
    if names != [] {
      var s := EncodeNames(names);
      var n := names[0];
      assert s[0] as nat == |n|;
      assert s[1 .. 1 + |n|] == n;
      assert s[1 + |n|..] == EncodeNames(names[1..]);
      DecodeEncodeNames(names[1..]);
      assert [n] + names[1..] == names;
    }
  }

  class ArlFile {
    var data: array<byte>
    var len: nat
    var cap: nat
    var compressed: Archive.CompressType
    var cur: nat

    /**
     * `siswa_arlCreate`: writes the ARL2 magic, the archive count and the
     * archive sizes at the front of the buffer and puts the cursor right
     * after them. The count must be positive. `len` and `cap` are left as
     * they were, unset.
     */
    constructor Create(buffer: array<byte>, sizes: seq<u32>)
      requires |sizes| != 0 && ArlFixedSize + 4 * |sizes| <= buffer.Length
      modifies buffer
      ensures data == buffer && compressed == Archive.CompressNone
      ensures cur == ArlFixedSize + 4 * |sizes|
      ensures buffer[..cur] == ArlHeader(sizes)
      ensures buffer[ArlFixedSize + 4 * |sizes|..] == old(buffer[ArlFixedSize + 4 * |sizes|..])
    {
      var head := LE32(Archive.IdentifierArl2) + LE32(|sizes| % U32Limit);
      ghost var b0 := buffer[..];
      Archive.Write(buffer, 0, head);
      ghost var b1 := buffer[..];
      Archive.Write(buffer, ArlFixedSize, LE32s(sizes));
      data := buffer;
      cur := ArlFixedSize + 4 * |sizes|;
      compressed := Archive.CompressNone;
      new;
      assert buffer[..ArlFixedSize] == b1[..ArlFixedSize] == head;
      assert buffer[..cur] == buffer[..ArlFixedSize] + buffer[ArlFixedSize..cur];
      assert buffer[cur..] == b1[cur..] == b0[cur..];
    }

    /**
     * `siswa_arlEntryPoll`: at or past `len` returns nothing and leaves the
     * cursor where it is; otherwise returns the entry at the cursor and moves
     * the cursor past its length byte and its name bytes.
     */
    method Poll() returns (e: Option<nat>)
      requires cur < len ==> cur < data.Length
      modifies this`cur
      ensures e.None? <==> old(cur) >= len
      ensures e.None? ==> cur == old(cur)
      ensures e.Some? ==> e.value == old(cur) && cur == old(cur) + data[old(cur)] as nat + 1
    {
      if cur >= len {
        return None;
      }
      e := Some(cur);
      cur := cur + data[cur] as nat + 1;
    }
  }

  /**
   * When the bytes from the cursor to `len` are the entries of a non-empty
   * list of names, a poll returns the first entry, whose length byte and name
   * bytes are the first name's, and leaves the cursor on the entries of the
   * remaining names.
   */
  lemma PollWalks(s: seq<byte>, c: nat, len: nat, names: seq<seq<byte>>)
    requires c <= len <= |s| && (forall i | 0 <= i < |names| :: ShortName(names[i]))
    requires s[c..len] == EncodeNames(names)
    ensures names == [] <==> c >= len
    ensures names != [] ==>
      var next := c + s[c] as nat + 1;
      && next <= len && s[c] as nat == |names[0]| && s[c + 1 .. next] == names[0]
      && s[next..len] == EncodeNames(names[1..])
  {
    if names != [] {
      var n := names[0];
      var next := c + |n| + 1;
      var e := EncodeNames(names);
      assert ShortName(n);
      assert e == [|n| as byte] + n + EncodeNames(names[1..]);
      assert e[1 .. 1 + |n|] == n && e[1 + |n|..] == EncodeNames(names[1..]);
      assert s[c] == e[0];
      assert next <= len;
      forall j | 0 <= j < |n|
        ensures s[c + 1 .. next][j] == n[j]
      {
        assert s[c + 1 + j] == s[c..len][1 + j] == e[1 .. 1 + |n|][j];
      }
      assert s[next..len] == e[1 + |n|..];
    }
  }
}
