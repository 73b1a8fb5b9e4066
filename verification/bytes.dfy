/** Bytes, little-endian 32-bit fields and the C string comparisons used by the archive engine. */
module Bytes {

  newtype byte = x: int | 0 <= x < 256

  datatype Option<T> = None | Some(value: T)

  const U32Limit: nat := 0x1_0000_0000

  /** A value that fits a `uint32_t` field. */
  type u32 = x: nat | x < U32Limit

  /** The four bytes of a `uint32_t` as a little-endian host stores them. */
  function LE32(x: u32): (s: seq<byte>)
    ensures |s| == 4
  {
    [(x % 256) as byte, (x / 256 % 256) as byte, (x / 65536 % 256) as byte, (x / 16777216) as byte]
  }

  /** The `uint32_t` stored little-endian at s[i..i+4]. */
  function ReadU32(s: seq<byte>, i: nat): (x: u32)
    requires i + 4 <= |s|
  {
    s[i] as nat + 256 * s[i + 1] as nat + 65536 * s[i + 2] as nat + 16777216 * s[i + 3] as nat
  }

  /** Writing a field and reading it back gives the value written. */
  lemma ReadLE32(x: u32)
    ensures ReadU32(LE32(x), 0) == x
  {
    var a := x / 256;
    var b := a / 256;
    assert x == x % 256 + 256 * a;
    assert a == a % 256 + 256 * b;
    assert b == b % 256 + 256 * (b / 256);
    assert x / 65536 == b;
    assert x / 16777216 == b / 256;
  }

  /** Reading a field and writing it back gives the bytes read. */
  lemma LE32Read(s: seq<byte>, i: nat)
    requires i + 4 <= |s|
    ensures LE32(ReadU32(s, i)) == s[i .. i + 4]
  {
    var x := ReadU32(s, i);
    var b0, b1, b2, b3 := s[i] as nat, s[i + 1] as nat, s[i + 2] as nat, s[i + 3] as nat;
    assert x == b0 + 256 * (b1 + 256 * (b2 + 256 * b3));
    assert x % 256 == b0 && x / 256 == b1 + 256 * (b2 + 256 * b3);
    var y := x / 256;
    assert y % 256 == b1 && y / 256 == b2 + 256 * b3;
    assert x / 65536 == y / 256;
    var z := y / 256;
    assert z % 256 == b2 && z / 256 == b3;
    assert x / 16777216 == z / 256;
  }

  /** A field read depends only on its own four bytes. */
  lemma ReadU32Slice(s: seq<byte>, i: nat, t: seq<byte>, j: nat)
    requires i + 4 <= |s| && j + 4 <= |t| && s[i .. i + 4] == t[j .. j + 4]
    ensures ReadU32(s, i) == ReadU32(t, j)
  {
    assert s[i] == s[i .. i + 4][0] == t[j];
    assert s[i + 1] == s[i .. i + 4][1] == t[j + 1];
    assert s[i + 2] == s[i .. i + 4][2] == t[j + 2];
    assert s[i + 3] == s[i .. i + 4][3] == t[j + 3];
  }

  /** A slice that is the concatenation p + q splits into p and q. */
  lemma SplitSlice(b: seq<byte>, lo: nat, hi: nat, p: seq<byte>, q: seq<byte>)
    requires lo <= hi <= |b| && b[lo..hi] == p + q
    ensures b[lo .. lo + |p|] == p && b[lo + |p| .. hi] == q
  {
    assert b[lo .. lo + |p|] == b[lo..hi][..|p|] == (p + q)[..|p|];
    assert b[lo + |p| .. hi] == b[lo..hi][|p|..] == (p + q)[|p|..];
  }

  /** A window [i, j) of a slice holding r is the same window of r. */
  lemma SubSlice(b: seq<byte>, e: nat, r: seq<byte>, i: nat, j: nat)
    requires e + |r| <= |b| && b[e .. e + |r|] == r && i <= j <= |r|
    ensures b[e + i .. e + j] == r[i..j]
  {
    forall x | 0 <= x < j - i
      ensures b[e + i .. e + j][x] == r[i..j][x]
    {
      assert b[e + i + x] == b[e .. e + |r|][i + x];
    }
  }

  predicate NoNul(s: seq<byte>)
  {
    forall i | 0 <= i < |s| :: s[i] != 0
  }

  /** The C string stored at s + i: the bytes from i up to the first NUL. */
  function CStrAt(s: seq<byte>, i: nat): (r: seq<byte>)
    requires i <= |s|
    ensures i + |r| <= |s| && r == s[i .. i + |r|] && NoNul(r)
    ensures i + |r| < |s| ==> s[i + |r|] == 0
    decreases |s| - i
  {
    if i == |s| || s[i] == 0 then [] else [s[i]] + CStrAt(s, i + 1)
  }

  /** A NUL at index j bounds the C string at i: it ends at or before j. */
  lemma CStrBefore(s: seq<byte>, i: nat, j: nat)
    requires i <= j < |s| && s[j] == 0
    ensures i + |CStrAt(s, i)| <= j
  {
    var r := CStrAt(s, i);
    if i + |r| > j {
      assert false;
    }
  }

  /** NUL-free bytes followed by a NUL are exactly the C string stored there. */
  lemma CStrIs(s: seq<byte>, i: nat, n: nat)
    requires i + n < |s| && NoNul(s[i .. i + n]) && s[i + n] == 0
    ensures CStrAt(s, i) == s[i .. i + n]
  {
    CStrBefore(s, i, i + n);
    var r := CStrAt(s, i);
    if |r| < n {
      assert false;
    }
  }

  /** NUL-free bytes running to the end of s are the C string stored there. */
  lemma {:induction false} CStrAtNoNul(s: seq<byte>, j: nat)
    requires j <= |s| && NoNul(s[j..])
    ensures CStrAt(s, j) == s[j..]
    decreases |s| - j
  {
    if j < |s| {
      assert s[j] == s[j..][0];
      CStrAtNoNul(s, j + 1);
      assert s[j..] == [s[j]] + s[j + 1..];
    }
  }

  /** The NUL-free bytes before a NUL or the end of s are the C string at its front. */
  lemma CStrEnd(s: seq<byte>, i: nat)
    requires i <= |s| && NoNul(s[..i]) && (i < |s| ==> s[i] == 0)
    ensures CStrAt(s, 0) == s[..i]
  {
    if i < |s| {
      assert s[0..i] == s[..i];
      CStrIs(s, 0, i);
    } else {
      assert s[0..] == s[..i];
      CStrAtNoNul(s, 0);
    }
  }

  /** A C string that ends inside r reads the same from any buffer holding r. */
  lemma CStrShift(b: seq<byte>, e: nat, r: seq<byte>, j: nat)
    requires e + |r| <= |b| && b[e .. e + |r|] == r && j <= |r| && j + |CStrAt(r, j)| < |r|
    ensures CStrAt(b, e + j) == CStrAt(r, j)
  {
    var c := CStrAt(r, j);
    var n := |c|;
    SubSlice(b, e, r, j, j + n);
    assert b[e + j + n] == b[e .. e + |r|][j + n];
    CStrIs(b, e + j, n);
  }

  /**
   * `strncmp(a, s, n) == 0` where `a` holds at least n bytes and `s` is a
   * NUL-terminated string whose bytes before the terminator are `s`: the
   * comparison stops after n bytes or after a NUL common to both.
   */
  predicate StrnEq(a: seq<byte>, s: seq<byte>, n: nat)
    requires n <= |a|
    decreases n
  {
    n == 0 ||
    if s == [] then a[0] == 0
    else a[0] == s[0] && (a[0] == 0 || StrnEq(a[1..], s[1..], n - 1))
  }

  /**
   * The name test of the archive's find and add loops: the first byte of the
   * query equals the first byte of the record's name, and `strncmp` agrees on
   * the next `|query| - 1` bytes.
   */
  predicate NameMatches(query: seq<byte>, name: seq<byte>)
    requires |query| >= 1
  {
    name != [] && query[0] == name[0] && StrnEq(query[1..], name[1..], |query| - 1)
  }

  /** For a NUL-free prefix of `a`, `strncmp` succeeds exactly when that prefix starts `s`. */
  lemma {:induction false} StrnEqNoNul(a: seq<byte>, s: seq<byte>, n: nat)
    requires n <= |a| && NoNul(a[..n]) && NoNul(s)
    ensures StrnEq(a, s, n) <==> n <= |s| && s[..n] == a[..n]
  {
    if n > 0 {
      assert a[0] == a[..n][0];
      if s != [] {
        assert a[1..][..n - 1] == a[1..n];
        assert forall i | 0 <= i < n - 1 :: a[1..n][i] == a[..n][i + 1];
        StrnEqNoNul(a[1..], s[1..], n - 1);
        if n <= |s| && s[..n] == a[..n] {
          assert s[1..][..n - 1] == s[1..n] == a[1..n];
        }
        if StrnEq(a, s, n) {
          assert s[..n] == [s[0]] + s[1..][..n - 1];
          assert a[..n] == [a[0]] + a[1..][..n - 1];
        }
      }
    }
  }

  /**
   * For a query without NUL bytes the archive's name test is a prefix test:
   * a record matches when its name starts with the query.
   */
  lemma NameMatchesIsPrefix(query: seq<byte>, name: seq<byte>)
    requires |query| >= 1 && query[0] != 0 && NoNul(query) && NoNul(name)
    ensures NameMatches(query, name) <==> |query| <= |name| && name[..|query|] == query
  {
    if name != [] {
      assert query[1..][..|query| - 1] == query[1..];
      StrnEqNoNul(query[1..], name[1..], |query| - 1);
      if |query| <= |name| && name[..|query|] == query {
        assert name[1..][..|query| - 1] == name[1..|query|] == query[1..];
      }
      if NameMatches(query, name) {
        assert name[..|query|] == [name[0]] + name[1..][..|query| - 1];
        assert query == [query[0]] + query[1..];
      }
    }
  }
}
