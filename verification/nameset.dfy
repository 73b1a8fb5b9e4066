/**
 * The transient name set of the merge: FNV-1a 64-bit hashing of C strings and
 * an open-addressing table of string references with linear probing.
 * A slot holds either nothing (a NULL pointer) or the name it points to.
 */
module NameSet {
  import opened Bytes

  const U64Limit: nat := 0x1_0000_0000_0000_0000
  const FnvOffset: nat := 14695981039346656037
  const FnvPrime: nat := 1099511628211

  /** A `uint64_t` value. */
  type u64 = x: nat | x < U64Limit

  /** Bitwise exclusive or of two naturals. */
  function BitXor(a: nat, b: nat): nat
    decreases a + b
  {
    if a == 0 then b
    else if b == 0 then a
    else 2 * BitXor(a / 2, b / 2) + (if a % 2 == b % 2 then 0 else 1)
  }

  /** Bitwise AND of two naturals. */
  function BitAnd(a: nat, b: nat): nat
    decreases a
  {
    if a == 0 || b == 0 then 0
    else 2 * BitAnd(a / 2, b / 2) + (if a % 2 == 1 && b % 2 == 1 then 1 else 0)
  }

  /** Masking never exceeds the mask. */
  lemma {:induction false} BitAndLe(a: nat, b: nat)
    ensures BitAnd(a, b) <= b
    decreases a
  {
    if a != 0 && b != 0 {
      BitAndLe(a / 2, b / 2);
    }
  }

  /**
   * The conversion `(uint64_t)(*p)` of a plain `char`: the char is signed on the
   * x86 targets of the library, so bytes 0x80..0xFF sign-extend.
   */
  function Widen(b: byte): u64
  {
    if b < 128 then b as int else b as int + 0xFFFF_FFFF_FFFF_FF00
  }

  /** One FNV-1a round: xor the byte into the hash, then multiply by the prime, modulo 2^64. */
  function FnvStep(h: u64, b: byte): u64
  {
    BitXor(h, Widen(b)) * FnvPrime % U64Limit
  }

  /** FNV-1a over the bytes of s. */
  function Fnv(s: seq<byte>): u64
  {
    if s == [] then FnvOffset else FnvStep(Fnv(s[..|s| - 1]), s[|s| - 1])
  }

  /** `si_hash_key`: the FNV-1a hash of the C string stored at the front of key. */
  method HashKey(key: seq<byte>) returns (h: u64)
    ensures h == Fnv(CStrAt(key, 0))
  {
    h := FnvOffset;
    var i := 0;
    while i < |key| && key[i] != 0
      invariant i <= |key| && NoNul(key[..i])
      invariant h == Fnv(key[..i])
    {
      assert key[..i + 1][..i] == key[..i];
      h := FnvStep(h, key[i]);
      i := i + 1;
    }
    CStrEnd(key, i);
    assert CStrAt(key, 0) == key[..i];
    assert h == Fnv(CStrAt(key, 0));
  }

  /** The home slot `hash & (capacity - 1)`: always a slot of the table. */
  function SlotIndex(h: u64, capacity: nat): (i: nat)
    requires 1 <= capacity
    ensures i < capacity
  {
    BitAndLe(h, capacity - 1);
    BitAnd(h, capacity - 1)
  }

  /** Number of probe steps from slot `home` to slot i, wrapping around the end of the table. */
  function Dist(i: nat, home: nat, capacity: nat): nat
    requires i < capacity && home < capacity
  {
    if i >= home then i - home else i + capacity - home
  }

  /** The number of empty slots. */
  function FreeCount(s: seq<Option<seq<byte>>>): nat
  {
    if s == [] then 0 else FreeCount(s[..|s| - 1]) + (if s[|s| - 1].None? then 1 else 0)
  }

  /** A table with a positive count of empty slots has an empty slot. */
  lemma {:induction false} FreeCountPositive(s: seq<Option<seq<byte>>>)
    requires FreeCount(s) > 0
    ensures exists i | 0 <= i < |s| :: s[i].None?
  {
    if s[|s| - 1].Some? {
      FreeCountPositive(s[..|s| - 1]);
      var i :| 0 <= i < |s| - 1 && s[..|s| - 1][i].None?;
      assert s[i].None?;
    }
  }

  /** Filling one empty slot lowers the count of empty slots by one. */
  lemma {:induction false} FreeCountFill(s: seq<Option<seq<byte>>>, i: nat, k: seq<byte>)
    requires i < |s| && s[i].None?
    ensures FreeCount(s[i := Some(k)]) == FreeCount(s) - 1
  {
    var t := s[i := Some(k)];
    if i < |s| - 1 {
      assert t[..|t| - 1] == s[..|s| - 1][i := Some(k)];
      FreeCountFill(s[..|s| - 1], i, k);
    } else {
      assert t[..|t| - 1] == s[..|s| - 1];
    }
  }

  /** A cleared table of n slots has n empty slots. */
  lemma {:induction false} FreeCountCleared(s: seq<Option<seq<byte>>>)
    requires forall i | 0 <= i < |s| :: s[i].None?
    ensures FreeCount(s) == |s|
  {
    if s != [] {
      FreeCountCleared(s[..|s| - 1]);
    }
  }

  class HashTable {
    /** The slots; their number is the table's `capacity`. */
    var entries: array<Option<seq<byte>>>

    /** The names the table holds. */
    ghost function Keys(): set<seq<byte>>
      reads this, entries
    {
      set i | 0 <= i < entries.Length && entries[i].Some? :: entries[i].value
    }

    /** A usable capacity, and every stored name is a C string without its terminator. */
    ghost predicate Valid()
      reads this, entries
    {
      1 <= entries.Length &&
      forall i | 0 <= i < entries.Length && entries[i].Some? :: NoNul(entries[i].value)
    }

    /** `si_hashtable_make_reserve`: `capacity` slots, all cleared. */
    constructor MakeReserve(capacity: nat)
      requires 1 <= capacity
      ensures Valid() && fresh(entries) && entries.Length == capacity
      ensures Keys() == {} && FreeCount(entries[..]) == capacity
    {
      entries := new Option<seq<byte>>[capacity](_ => None);
      new;
      FreeCountCleared(entries[..]);
    }

    /**
     * `si_hashtable_exists`: probes every slot once, starting at the key's home
     * slot and wrapping around, skipping empty slots; succeeds when a slot holds
     * the key (the first-byte check plus `strcmp` is equality of C strings).
     */
    method Exists(key: seq<byte>) returns (found: bool)
      requires Valid() && NoNul(key)
      ensures found <==> key in Keys()
    {
      var h := HashKey(key);
      CStrEnd(key, |key|);
      assert key[..|key|] == key;
      var cap := entries.Length;
      var home := SlotIndex(h, cap);
      var idx: nat := home;
      while true
        invariant idx < cap
        invariant forall i | 0 <= i < cap && Dist(i, home, cap) < Dist(idx, home, cap) :: entries[i] != Some(key)
        decreases cap - Dist(idx, home, cap)
      {
        if entries[idx].Some? && entries[idx].value == key {
          return true;
        }
        var next := idx + 1;
        if next == cap {
          next := 0;
        }
        if next == home {
          assert forall i | 0 <= i < cap :: entries[i] != Some(key) by {
            forall i | 0 <= i < cap
              ensures entries[i] != Some(key)
            {
              assert Dist(i, home, cap) <= Dist(idx, home, cap);
            }
          }
          return false;
        }
        idx := next;
      }
    }

    /** The probe of `si_hashtable_set`: the first empty slot at or after home, wrapping around. */
    method FreeSlot(home: nat) returns (slot: nat)
      requires home < entries.Length && exists i | 0 <= i < entries.Length :: entries[i].None?
      ensures slot < entries.Length && entries[slot].None?
      ensures forall i | 0 <= i < entries.Length && Dist(i, home, entries.Length) < Dist(slot, home, entries.Length) ::
        entries[i].Some?
    {
      var cap := entries.Length;
      ghost var f: nat :| f < cap && entries[f].None?;
      slot := home;
      while entries[slot].Some?
        invariant slot < cap && Dist(slot, home, cap) <= Dist(f, home, cap)
        invariant forall i | 0 <= i < cap && Dist(i, home, cap) < Dist(slot, home, cap) :: entries[i].Some?
        decreases Dist(f, home, cap) - Dist(slot, home, cap)
      {
        slot := slot + 1;
        if slot == cap {
          slot := 0;
        }
      }
    }

    /**
     * `si_hashtable_set`: stores the key in the first empty slot at or after its
     * home slot, wrapping around, and returns the home slot. The table must have
     * an empty slot: on a full table the probe never ends.
     */
    method Set(key: seq<byte>) returns (home: nat, ghost slot: nat)
      requires Valid() && NoNul(key)
      requires exists i | 0 <= i < entries.Length :: entries[i].None?
      modifies entries
      ensures Valid()
      ensures home == SlotIndex(Fnv(key), entries.Length)
      ensures slot < entries.Length && old(entries[slot]).None?
      ensures entries[..] == old(entries[..])[slot := Some(key)]
      ensures forall i | 0 <= i < entries.Length && Dist(i, home, entries.Length) < Dist(slot, home, entries.Length) ::
        old(entries[i]).Some?
      ensures Keys() == old(Keys()) + {key}
    {
      var h := HashKey(key);
      CStrEnd(key, |key|);
      assert key[..|key|] == key;
      home := SlotIndex(h, entries.Length);
      var idx := FreeSlot(home);
      slot := idx;
      entries[idx] := Some(key);
      assert Keys() == old(Keys()) + {key} by {
        forall k | k in old(Keys())
          ensures k in Keys()
        {
          var i :| 0 <= i < entries.Length && old(entries[i]).Some? && old(entries[i]).value == k;
          assert entries[i] == old(entries[i]);
        }
      }
    }
  }
}
