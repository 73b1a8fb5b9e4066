/**
 * `siswa_arMergeMul`: builds a fresh archive in an output buffer from the
 * records of several archives. The records of the secondary archives are
 * copied in order, a record only when no record copied before had its name
 * (first occurrence wins); the records of the main archive follow, each unless
 * its name came from a secondary archive. Main records are never registered in
 * the name set, so duplicate names inside the main archive are all copied.
 */
module Merge {
  import opened Bytes
  import opened Layout
  import opened Archive
  import opened NameSet

  /** Slots of the name set: `SI_DEFAULT_STACK_SIZE / sizeof(char*) - sizeof(siHashTable)`, which expands to 8 * 1024 / 8 - 16. */
  const TableCapacity: nat := 8 * 1024 / 8 - 16

  /** The name the merge looks up for record r (bytes too short to hold an entry header have none). */
  function Key(r: seq<byte>): seq<byte>
  {
    if |r| < EntryHeaderSize then [] else Name(r)
  }

  /*
   * The filtering rules below are stated for any kind of item R with a naming
   * function `key`; the merge uses them on records named by Key.
   */

  /** The names of the items. */
  function NamesOf<R>(rs: seq<R>, key: R -> seq<byte>): set<seq<byte>>
  {
    if rs == [] then {} else NamesOf(rs[..|rs| - 1], key) + {key(rs[|rs| - 1])}
  }

  lemma {:induction false} NamesOfAppend<R>(a: seq<R>, b: seq<R>, key: R -> seq<byte>)
    ensures NamesOf(a + b, key) == NamesOf(a, key) + NamesOf(b, key)
    decreases |b|
  {
    if b == [] {
      assert a + b == a;
    } else {
      var b' := b[..|b| - 1];
      assert (a + b)[..|a + b| - 1] == a + b';
      NamesOfAppend(a, b', key);
    }
  }

  /** A name belongs to NamesOf(rs) exactly when some item of rs carries it. */
  lemma {:induction false} NamesOfMember<R>(rs: seq<R>, key: R -> seq<byte>)
    ensures forall i | 0 <= i < |rs| :: key(rs[i]) in NamesOf(rs, key)
    ensures forall n | n in NamesOf(rs, key) :: exists i | 0 <= i < |rs| :: key(rs[i]) == n
  {
    if rs != [] {
      var init := rs[..|rs| - 1];
      NamesOfMember(init, key);
      forall i | 0 <= i < |rs|
        ensures key(rs[i]) in NamesOf(rs, key)
      {
        if i < |init| {
          assert rs[i] == init[i];
        }
      }
      forall n | n in NamesOf(rs, key)
        ensures exists i | 0 <= i < |rs| :: key(rs[i]) == n
      {
        if n in NamesOf(init, key) {
          var i :| 0 <= i < |init| && key(init[i]) == n;
          assert rs[i] == init[i];
        } else {
          assert key(rs[|rs| - 1]) == n;
        }
      }
    }
  }

  /** No two items carry the same name. */
  predicate DistinctNames<R>(rs: seq<R>, key: R -> seq<byte>)
  {
    forall i, j | 0 <= i < j < |rs| :: key(rs[i]) != key(rs[j])
  }

  /**
   * The items in order, each kept only when no earlier item had its name:
   * what the first loop of the merge copies when it polls the records rs.
   */
  function FirstWins<R>(rs: seq<R>, key: R -> seq<byte>): seq<R>
  {
    if rs == [] then []
    else
      var init := rs[..|rs| - 1];
      var r := rs[|rs| - 1];
      FirstWins(init, key) + (if key(r) in NamesOf(init, key) then [] else [r])
  }

  /** The items whose names are not in seen, in order; duplicates among them all stay. */
  function Unseen<R>(rs: seq<R>, seen: set<seq<byte>>, key: R -> seq<byte>): seq<R>
  {
    if rs == [] then []
    else
      var r := rs[|rs| - 1];
      Unseen(rs[..|rs| - 1], seen, key) + (if key(r) in seen then [] else [r])
  }

  /** The lists one after the other. */
  function Concat<R>(ls: seq<seq<R>>): seq<R>
  {
    if ls == [] then [] else Concat(ls[..|ls| - 1]) + ls[|ls| - 1]
  }

  /**
   * The records the merge writes after the header, given the records polled
   * from each secondary archive and from the main archive.
   */
  function Merged(ls: seq<seq<seq<byte>>>, main: seq<seq<byte>>): seq<seq<byte>>
  {
    FirstWins(Concat(ls), Key) + Unseen(main, NamesOf(Concat(ls), Key), Key)
  }

  /**
   * The merge rule read front to back, as a reference: keep an item unless its
   * name was already seen, and then count its name as seen.
   */
  function Dedup<R>(rs: seq<R>, seen: set<seq<byte>>, key: R -> seq<byte>): seq<R>
    decreases |rs|
  {
    if rs == [] then []
    else if key(rs[0]) in seen then Dedup(rs[1..], seen, key)
    else [rs[0]] + Dedup(rs[1..], seen + {key(rs[0])}, key)
  }

  lemma {:induction false} DedupSnoc<R>(a: seq<R>, r: R, seen: set<seq<byte>>, key: R -> seq<byte>)
    ensures Dedup(a + [r], seen, key) == Dedup(a, seen, key) + (if key(r) in seen + NamesOf(a, key) then [] else [r])
    decreases |a|
  {
    if a == [] {
      assert [] + [r] == [r];
      assert [r][1..] == [];
    } else {
      var t := a[1..];
      assert (a + [r])[1..] == t + [r];
      assert a == [a[0]] + t;
      NamesOfAppend([a[0]], t, key);
      assert [a[0]][..0] == [];
      if key(a[0]) in seen {
        DedupSnoc(t, r, seen, key);
      } else {
        DedupSnoc(t, r, seen + {key(a[0])}, key);
      }
    }
  }

  /** The loop-shaped definition agrees with the front-to-back reference rule. */
  lemma {:induction false} FirstWinsIsDedup<R>(rs: seq<R>, key: R -> seq<byte>)
    ensures FirstWins(rs, key) == Dedup(rs, {}, key)
  {
    if rs != [] {
      var init := rs[..|rs| - 1];
      FirstWinsIsDedup(init, key);
      DedupSnoc(init, rs[|rs| - 1], {}, key);
      assert init + [rs[|rs| - 1]] == rs;
    }
  }

  /** Polling one more item r: its name joins the names, and the rule keeps r when its name is new. */
  lemma Snoc<R>(d: seq<R>, r: R, key: R -> seq<byte>)
    ensures NamesOf(d + [r], key) == NamesOf(d, key) + {key(r)}
    ensures FirstWins(d + [r], key) == FirstWins(d, key) + (if key(r) in NamesOf(d, key) then [] else [r])
  {
    assert (d + [r])[..|d|] == d;
  }

  /** Every name of rs survives, carried by exactly one kept item. */
  lemma {:induction false} FirstWinsNames<R>(rs: seq<R>, key: R -> seq<byte>)
    ensures NamesOf(FirstWins(rs, key), key) == NamesOf(rs, key)
    ensures DistinctNames(FirstWins(rs, key), key)
  {
    if rs != [] {
      var init := rs[..|rs| - 1];
      var r := rs[|rs| - 1];
      var f := FirstWins(init, key);
      FirstWinsNames(init, key);
      assert init + [r] == rs;
      Snoc(init, r, key);
      assert NamesOf(rs, key) == NamesOf(init, key) + {key(r)};
      if key(r) in NamesOf(init, key) {
        assert FirstWins(rs, key) == f + [];
        assert f + [] == f;
      } else {
        assert FirstWins(rs, key) == f + [r];
        Snoc(f, r, key);
        NamesOfMember(f, key);
        forall i, j | 0 <= i < j < |f| + 1
          ensures key((f + [r])[i]) != key((f + [r])[j])
        {
          if j == |f| {
            assert key(f[i]) in NamesOf(f, key);
          } else {
            assert (f + [r])[i] == f[i] && (f + [r])[j] == f[j];
          }
        }
      }
    }
  }

  /** Every kept item is one of the items polled. */
  lemma {:induction false} FirstWinsFrom<R>(rs: seq<R>, key: R -> seq<byte>)
    ensures forall i | 0 <= i < |FirstWins(rs, key)| :: FirstWins(rs, key)[i] in rs
  {
    if rs != [] {
      var init := rs[..|rs| - 1];
      FirstWinsFrom(init, key);
      var f := FirstWins(init, key);
      forall i | 0 <= i < |FirstWins(rs, key)|
        ensures FirstWins(rs, key)[i] in rs
      {
        if i < |f| {
          assert FirstWins(rs, key)[i] == f[i];
          assert f[i] in init;
        } else {
          assert FirstWins(rs, key)[i] == rs[|rs| - 1];
        }
      }
    }
  }

  /** The items kept from a prefix are a prefix of those kept from the whole. */
  lemma {:induction false} FirstWinsPrefix<R>(x: seq<R>, y: seq<R>, key: R -> seq<byte>)
    ensures FirstWins(x, key) <= FirstWins(x + y, key)
    decreases |y|
  {
    if y == [] {
      assert x + y == x;
    } else {
      var y' := y[..|y| - 1];
      assert (x + y)[..|x + y| - 1] == x + y';
      FirstWinsPrefix(x, y', key);
    }
  }

  /** A name survives exactly when it was not seen. */
  lemma {:induction false} UnseenNames<R>(rs: seq<R>, seen: set<seq<byte>>, key: R -> seq<byte>)
    ensures NamesOf(Unseen(rs, seen, key), key) == NamesOf(rs, key) - seen
  {
    if rs != [] {
      var init := rs[..|rs| - 1];
      var r := rs[|rs| - 1];
      var u := Unseen(init, seen, key);
      UnseenNames(init, seen, key);
      Snoc(init, r, key);
      assert init + [r] == rs;
      assert NamesOf(rs, key) == NamesOf(init, key) + {key(r)};
      if key(r) in seen {
        assert Unseen(rs, seen, key) == u + [];
        assert u + [] == u;
      } else {
        assert Unseen(rs, seen, key) == u + [r];
        Snoc(u, r, key);
      }
    }
  }

  /** Every item that stays is one of the items given, and its name was not seen. */
  lemma {:induction false} UnseenFrom<R>(rs: seq<R>, seen: set<seq<byte>>, key: R -> seq<byte>)
    ensures forall i | 0 <= i < |Unseen(rs, seen, key)| ::
      Unseen(rs, seen, key)[i] in rs && key(Unseen(rs, seen, key)[i]) !in seen
  {
    if rs != [] {
      var init := rs[..|rs| - 1];
      UnseenFrom(init, seen, key);
      var u := Unseen(init, seen, key);
      forall i | 0 <= i < |Unseen(rs, seen, key)|
        ensures Unseen(rs, seen, key)[i] in rs && key(Unseen(rs, seen, key)[i]) !in seen
      {
        if i < |u| {
          assert Unseen(rs, seen, key)[i] == u[i];
          assert u[i] in init;
        } else {
          assert Unseen(rs, seen, key)[i] == rs[|rs| - 1];
        }
      }
    }
  }

  /** With nothing seen every item stays, duplicates included. */
  lemma {:induction false} UnseenNothing<R>(rs: seq<R>, key: R -> seq<byte>)
    ensures Unseen(rs, {}, key) == rs
  {
    if rs != [] {
      UnseenNothing(rs[..|rs| - 1], key);
      assert rs[..|rs| - 1] + [rs[|rs| - 1]] == rs;
    }
  }

  /**
   * The merged archive carries every name of every input: each name of a
   * secondary archive once, and each name of the main archive.
   */
  lemma MergedNames(ls: seq<seq<seq<byte>>>, main: seq<seq<byte>>)
    ensures NamesOf(Merged(ls, main), Key) == NamesOf(Concat(ls), Key) + NamesOf(main, Key)
    ensures DistinctNames(FirstWins(Concat(ls), Key), Key)
  {
    var pool := Concat(ls);
    FirstWinsNames(pool, Key);
    UnseenNames(main, NamesOf(pool, Key), Key);
    NamesOfAppend(FirstWins(pool, Key), Unseen(main, NamesOf(pool, Key), Key), Key);
  }

  /** Every list of records is well-formed. */
  predicate EachOk(ls: seq<seq<seq<byte>>>)
  {
    forall i | 0 <= i < |ls| :: AllOk(ls[i])
  }

  lemma {:induction false} ConcatOk(ls: seq<seq<seq<byte>>>)
    requires EachOk(ls)
    ensures AllOk(Concat(ls))
  {
    if ls != [] {
      var init := ls[..|ls| - 1];
      assert EachOk(init);
      ConcatOk(init);
      AllOkAppend(Concat(init), ls[|ls| - 1]);
    }
  }

  /**
   * Merging well-formed archives gives well-formed records, so the output
   * decodes back to exactly the merged records.
   */
  lemma MergedDecodes(ls: seq<seq<seq<byte>>>, main: seq<seq<byte>>)
    requires EachOk(ls) && AllOk(main)
    ensures AllOk(Merged(ls, main)) && Decode(Flatten(Merged(ls, main))) == Some(Merged(ls, main))
  {
    var pool := Concat(ls);
    ConcatOk(ls);
    FirstWinsFrom(pool, Key);
    UnseenFrom(main, NamesOf(pool, Key), Key);
    var f := FirstWins(pool, Key);
    var u := Unseen(main, NamesOf(pool, Key), Key);
    forall i | 0 <= i < |f|
      ensures RecOk(f[i])
    {
      var j :| 0 <= j < |pool| && pool[j] == f[i];
    }
    forall i | 0 <= i < |u|
      ensures RecOk(u[i])
    {
      var j :| 0 <= j < |main| && main[j] == u[i];
    }
    AllOkAppend(f, u);
    DecodeFlatten(Merged(ls, main));
  }

  /**
   * The shape of a merge: a name present in a secondary archive shadows the
   * main archive's record of that name, and the other main records follow.
   */
  lemma MergeShadows(a: seq<byte>, b: seq<byte>, c: seq<byte>)
    requires Key(a) == Key(b) && Key(b) != Key(c)
    ensures Merged([[a]], [b, c]) == [a, c]
  {
    assert [[a]][..0] == [];
    assert Concat([[a]]) == [a];
    assert [a][..0] == [];
    assert NamesOf([a], Key) == {Key(a)};
    assert FirstWins([a], Key) == [a];
    assert [b, c][..1] == [b] && [b][..0] == [];
    assert Unseen([b], {Key(a)}, Key) == [];
    assert Unseen([b, c], {Key(a)}, Key) == [c];
  }

  /** Main records are never registered: two main records of one new name are both copied. */
  lemma MainDuplicatesKept(ls: seq<seq<seq<byte>>>, b: seq<byte>, c: seq<byte>)
    requires Key(b) == Key(c) && Key(b) !in NamesOf(Concat(ls), Key)
    ensures Merged(ls, [b, c]) == FirstWins(Concat(ls), Key) + [b, c]
  {
    var seen := NamesOf(Concat(ls), Key);
    assert [b, c][..1] == [b] && [b][..0] == [];
    assert Unseen([b], seen, Key) == [b];
    assert Unseen([b, c], seen, Key) == [b, c];
  }

  lemma {:induction false} ConcatPrefix<R>(ls: seq<seq<R>>, i: nat)
    requires i < |ls|
    ensures Concat(ls[..i + 1]) == Concat(ls[..i]) + ls[i]
    ensures Concat(ls[..i + 1]) <= Concat(ls)
    decreases |ls|
  {
    assert ls[..i + 1][..i] == ls[..i];
    if i + 1 < |ls| {
      var init := ls[..|ls| - 1];
      ConcatPrefix(init, i);
      assert init[..i + 1] == ls[..i + 1] && init[..i] == ls[..i];
    } else {
      assert ls[..i + 1] == ls;
    }
  }

  lemma FlattenPrefix(a: seq<seq<byte>>, b: seq<seq<byte>>)
    requires a <= b
    ensures |Flatten(a)| <= |Flatten(b)|
  {
    assert b == a + b[|a|..];
    FlattenAppend(a, b[|a|..]);
  }

  lemma SubsetCard(a: set<seq<byte>>, b: set<seq<byte>>)
    requires a <= b
    ensures |a| <= |b|
  {
    assert b == a + (b - a);
  }

  /**
   * The output holds the header, then the records rs, and after them the
   * bytes it held before the merge began.
   */
  ghost predicate Emitted(out: seq<byte>, orig: seq<byte>, rs: seq<seq<byte>>)
  {
    |out| == |orig| && HeaderSize + |Flatten(rs)| <= |out| &&
    out[..HeaderSize] == HeaderBytes() &&
    out[HeaderSize .. HeaderSize + |Flatten(rs)|] == Flatten(rs) &&
    out[HeaderSize + |Flatten(rs)|..] == orig[HeaderSize + |Flatten(rs)|..]
  }

  /** Two sequences that agree up to j agree on every slice below j. */
  lemma PrefixParts<T>(a: seq<T>, b: seq<T>, i: nat, j: nat)
    requires i <= j <= |a| && j <= |b| && a[..j] == b[..j]
    ensures a[..i] == b[..i] && a[i..j] == b[i..j]
  {
    assert a[..i] == a[..j][..i] && b[..i] == b[..j][..i];
    assert a[i..j] == a[..j][i..] && b[i..j] == b[..j][i..];
  }

  /** Two sequences that agree from i on agree from any j >= i on. */
  lemma SuffixPart<T>(a: seq<T>, b: seq<T>, i: nat, j: nat)
    requires i <= j <= |a| && |a| == |b| && a[i..] == b[i..]
    ensures a[j..] == b[j..]
  {
    assert a[j..] == a[i..][j - i..] && b[j..] == b[i..][j - i..];
  }

  /** Copying record r at the end of the output extends what it holds by r. */
  lemma EmitStep(before: seq<byte>, after: seq<byte>, orig: seq<byte>, rs: seq<seq<byte>>, r: seq<byte>)
    requires Emitted(before, orig, rs)
    requires Placed(before, after, HeaderSize + |Flatten(rs)|, r)
    ensures Emitted(after, orig, rs + [r])
  {
    var o := HeaderSize + |Flatten(rs)|;
    FlattenSnoc(rs, r);
    PrefixParts(after, before, HeaderSize, o);
    assert after[HeaderSize .. o + |r|] == after[HeaderSize..o] + after[o .. o + |r|];
    SuffixPart(before, orig, o, o + |r|);
  }

  /** The records a poll loop on a copy of a sees: those from its cursor on. */
  ghost function Pending(a: ArFile): seq<seq<byte>>
    reads a
    requires a.Pos <= |a.Records|
  {
    a.Records[a.Pos..]
  }

  /** Every archive is well-formed with its cursor on a record boundary. */
  ghost predicate Ready(ars: seq<ArFile>)
    reads set a | a in ars, (set a | a in ars :: a.data)
  {
    forall i | 0 <= i < |ars| :: ars[i].Valid() && ars[i].CursorOk()
  }

  /** The pending records of each secondary archive, in order. */
  ghost function Pendings(ars: seq<ArFile>): (ls: seq<seq<seq<byte>>>)
    reads set a | a in ars
    requires forall i | 0 <= i < |ars| :: ars[i].Pos <= |ars[i].Records|
    ensures |ls| == |ars|
  {
    seq(|ars|, i requires 0 <= i < |ars| && ars[i].Pos <= |ars[i].Records| reads ars => Pending(ars[i]))
  }

  /** Entry i of Pendings is the pending records of archive i; all are well-formed when the archives are. */
  lemma PendingsAt(ars: seq<ArFile>)
    requires Ready(ars)
    ensures forall i | 0 <= i < |ars| :: Pendings(ars)[i] == Pending(ars[i])
    ensures EachOk(Pendings(ars))
  {
    forall i | 0 <= i < |ars|
      ensures AllOk(Pendings(ars)[i])
    {
      var a := ars[i];
      AllOkSlice(a.Records, a.Pos, |a.Records|);
      assert a.Records[a.Pos .. |a.Records|] == Pending(a);
    }
  }

  /** The name set holds exactly names and has a free slot for each name still to come. */
  ghost predicate SetHolds(ht: HashTable, names: set<seq<byte>>)
    reads ht, ht.entries
  {
    ht.Valid() && ht.Keys() == names &&
    |names| <= TableCapacity && FreeCount(ht.entries[..]) == TableCapacity - |names|
  }

  /** The output holds the header and the records rs, and o is the offset just past them. */
  ghost predicate OutHolds(out: array<byte>, orig: seq<byte>, rs: seq<seq<byte>>, o: nat)
    reads out
  {
    Emitted(out[..], orig, rs) && o == HeaderSize + |Flatten(rs)|
  }

  /**
   * key names every record of rs as Key does. The loops below take the naming
   * rule as a ghost parameter `key` and meet Key only through this predicate.
   */
  ghost predicate Agrees(key: seq<byte> -> seq<byte>, rs: seq<seq<byte>>)
  {
    forall i | 0 <= i < |rs| :: key(rs[i]) == Key(rs[i])
  }

  /**
   * One turn of a poll loop: `entry = siswa_arEntryPoll(&curAr)` and, when it
   * is not NULL, `siswa_arEntryGetName(entry)`; gives the record's bytes and name.
   */
  method Next(c: ArFile) returns (got: bool, entry: seq<byte>, name: seq<byte>)
    requires c.Valid() && c.CursorOk()
    modifies c`cur, c`Pos
    ensures c.Valid() && c.CursorOk()
    ensures got <==> old(c.Pos) < |c.Records|
    ensures got ==> c.Pos == old(c.Pos) + 1 && entry == c.Records[old(c.Pos)] && name == Key(entry) && NoNul(name)
  {
    ghost var k := c.Pos;
    var e := c.Poll();
    if e.None? {
      return false, [], [];
    }
    ghost var r := c.Records[k];
    var size := c.EntrySize(e.value);
    entry := c.data[e.value .. e.value + size];
    assert entry == r;
    assert RecOk(r);
    EntryName(c.data[..], e.value, r);
    name := CStrAt(c.data[..], EntryGetName(e.value));
    got := true;
  }

  /** `si_hashtable_set` on a name the set does not hold yet. */
  method Register(ht: HashTable, name: seq<byte>, ghost names: set<seq<byte>>)
    requires NoNul(name) && name !in names && SetHolds(ht, names) && |names| < TableCapacity
    modifies ht.entries
    ensures SetHolds(ht, names + {name})
  {
    FreeCountPositive(ht.entries[..]);
    ghost var slots := ht.entries[..];
    var home;
    ghost var slot;
    home, slot := ht.Set(name);
    FreeCountFill(slots, slot, name);
  }

  /** `memcpy(outBuffer, entry, entry->size)` followed by `outBuffer += entry->size`. */
  method Emit(out: array<byte>, o: nat, entry: seq<byte>, ghost orig: seq<byte>, ghost rs: seq<seq<byte>>)
      returns (o2: nat)
    requires OutHolds(out, orig, rs, o) && o + |entry| <= out.Length
    modifies out
    ensures OutHolds(out, orig, rs + [entry], o2)
  {
    ghost var before := out[..];
    FlattenAppend(rs, [entry]);
    Write(out, o, entry);
    EmitStep(before, out[..], orig, rs, entry);
    o2 := o + |entry|;
  }

  /** An item whose name was seen changes neither the names nor the items kept. */
  lemma SkipStep<R>(d: seq<R>, r: R, key: R -> seq<byte>)
    requires key(r) in NamesOf(d, key)
    ensures NamesOf(d + [r], key) == NamesOf(d, key) && FirstWins(d + [r], key) == FirstWins(d, key)
  {
    Snoc(d, r, key);
    assert FirstWins(d, key) + [] == FirstWins(d, key);
  }

  /** The items kept from a prefix are a prefix of those kept from the whole. */
  lemma {:induction false} UnseenPrefix<R>(x: seq<R>, y: seq<R>, seen: set<seq<byte>>, key: R -> seq<byte>)
    ensures Unseen(x, seen, key) <= Unseen(x + y, seen, key)
    decreases |y|
  {
    if y == [] {
      assert x + y == x;
    } else {
      var y' := y[..|y| - 1];
      assert (x + y)[..|x + y| - 1] == x + y';
      UnseenPrefix(x, y', seen, key);
    }
  }

  /** A prefix of the polled records has no more names, and keeps no more bytes, than the whole. */
  lemma PrefixBounds(x: seq<seq<byte>>, all: seq<seq<byte>>, key: seq<byte> -> seq<byte>)
    requires x <= all
    ensures NamesOf(x, key) <= NamesOf(all, key) && |NamesOf(x, key)| <= |NamesOf(all, key)|
    ensures |Flatten(FirstWins(x, key))| <= |Flatten(FirstWins(all, key))|
  {
    var rest := all[|x|..];
    assert x + rest == all;
    NamesOfAppend(x, rest, key);
    SubsetCard(NamesOf(x, key), NamesOf(all, key));
    FirstWinsPrefix(x, rest, key);
    FlattenPrefix(FirstWins(x, key), FirstWins(all, key));
  }

  /** A record whose name is new still has a free slot in the set and room in the output. */
  lemma KeepBounds(d: seq<seq<byte>>, r: seq<byte>, all: seq<seq<byte>>, o: nat, size: nat, key: seq<byte> -> seq<byte>)
    requires d + [r] <= all && key(r) !in NamesOf(d, key)
    requires |NamesOf(all, key)| <= TableCapacity && HeaderSize + |Flatten(FirstWins(all, key))| <= size
    requires o == HeaderSize + |Flatten(FirstWins(d, key))|
    ensures |NamesOf(d, key)| < TableCapacity && o + |r| <= size
  {
    Snoc(d, r, key);
    PrefixBounds(d + [r], all, key);
    FlattenAppend(FirstWins(d, key), [r]);
    assert Flatten([r]) == r + Flatten([]);
  }

  /** A record whose name is new: `si_hashtable_set`, then the copy to the output. */
  method Keep(entry: seq<byte>, name: seq<byte>, ht: HashTable, out: array<byte>, o: nat,
              ghost orig: seq<byte>, ghost d: seq<seq<byte>>, ghost key: seq<byte> -> seq<byte>)
      returns (o2: nat)
    requires name == key(entry) && NoNul(name) && name !in NamesOf(d, key)
    requires |NamesOf(d, key)| < TableCapacity && o + |entry| <= out.Length
    requires SetHolds(ht, NamesOf(d, key)) && OutHolds(out, orig, FirstWins(d, key), o)
    modifies out, ht.entries
    ensures SetHolds(ht, NamesOf(d + [entry], key)) && OutHolds(out, orig, FirstWins(d + [entry], key), o2)
  {
    Snoc(d, entry, key);
    Register(ht, name, NamesOf(d, key));
    o2 := Emit(out, o, entry, orig, FirstWins(d, key));
  }

  /** The first n + 1 items of all are the first n followed by item n. */
  lemma TakeOne<T>(all: seq<T>, n: nat)
    requires n < |all|
    ensures all[..n + 1] == all[..n] + [all[n]] && all[..n + 1] <= all
  {
    assert all == all[..n + 1] + all[n + 1..];
  }

  /** Item k of s, from position p0 on, sits at lo + (k - p0) in a sequence holding s[p0..] from lo. */
  lemma PendingAt<T>(all: seq<T>, lo: nat, s: seq<T>, p0: nat, k: nat)
    requires p0 <= k < |s| && lo + |s[p0..]| <= |all| && all[lo .. lo + |s[p0..]|] == s[p0..]
    ensures all[lo + (k - p0)] == s[k]
  {
    assert all[lo + (k - p0)] == all[lo .. lo + |s[p0..]|][k - p0];
  }

  /** The name set holds the names of the items d, and the output the items FirstWins keeps of them, up to o. */
  ghost predicate Progress(ht: HashTable, out: array<byte>, orig: seq<byte>, d: seq<seq<byte>>, o: nat,
                           key: seq<byte> -> seq<byte>)
    reads ht, ht.entries, out
  {
    SetHolds(ht, NamesOf(d, key)) && OutHolds(out, orig, FirstWins(d, key), o)
  }

  /** The set has room for every name of all, and the output for every record FirstWins keeps of them. */
  predicate Fits(all: seq<seq<byte>>, size: nat, key: seq<byte> -> seq<byte>)
  {
    |NamesOf(all, key)| <= TableCapacity && HeaderSize + |Flatten(FirstWins(all, key))| <= size
  }

  /**
   * One pass of the first loop, on record n of all the records the loop polls:
   * copies the record to the output at o and registers its name, unless the set
   * holds the name already.
   */
  method TakeRecord(entry: seq<byte>, name: seq<byte>, ht: HashTable, out: array<byte>, o: nat,
                    ghost orig: seq<byte>, ghost all: seq<seq<byte>>, ghost n: nat, ghost key: seq<byte> -> seq<byte>)
      returns (o2: nat)
    requires n < |all| && entry == all[n] && name == key(entry) && NoNul(name)
    requires Fits(all, out.Length, key) && Progress(ht, out, orig, all[..n], o, key)
    modifies out, ht.entries
    ensures Progress(ht, out, orig, all[..n + 1], o2, key)
  {
    TakeOne(all, n);
    ghost var d := all[..n];
    var seen := ht.Exists(name);
    if seen {
      SkipStep(d, entry, key);
      o2 := o;
    } else {
      KeepBounds(d, entry, all, o, out.Length, key);
      o2 := Keep(entry, name, ht, out, o, orig, d, key);
    }
  }

  /**
   * c polls a copy of an archive whose records are recs, from p0 on, and those
   * pending records are items n0 onward of all.
   */
  ghost predicate Polling(c: ArFile, out: array<byte>, recs: seq<seq<byte>>, p0: nat, all: seq<seq<byte>>, n0: nat)
    reads c, c.data
  {
    c.Valid() && c.CursorOk() && c.Records == recs && out != c.data && p0 <= c.Pos &&
    n0 + |recs[p0..]| <= |all| && all[n0 .. n0 + |recs[p0..]|] == recs[p0..]
  }

  /**
   * `curAr = a`: a fresh copy of the archive a, which polls the pending records
   * of a; those are items n0 onward of all.
   */
  method CopyPolling(a: ArFile, ghost out: array<byte>, ghost all: seq<seq<byte>>, ghost n0: nat, ghost pend: seq<seq<byte>>)
      returns (c: ArFile)
    requires a.Valid() && a.CursorOk() && out != a.data && pend == Pending(a)
    requires n0 + |pend| <= |all| && all[n0 .. n0 + |pend|] == pend
    ensures fresh(c) && Polling(c, out, a.Records, a.Pos, all, n0) && c.Pos == a.Pos
  {
    c := new ArFile.Copy(a);
  }

  /** A poll of the copy c: record n of all, with its name, unless c has passed its last record. */
  method NextPending(c: ArFile, ghost out: array<byte>, ghost all: seq<seq<byte>>, ghost n0: nat, ghost recs: seq<seq<byte>>,
                     ghost p0: nat, ghost n: nat, ghost key: seq<byte> -> seq<byte>)
      returns (got: bool, entry: seq<byte>, name: seq<byte>)
    requires Polling(c, out, recs, p0, all, n0) && n == n0 + (c.Pos - p0) && Agrees(key, all)
    modifies c`cur, c`Pos
    ensures got <==> old(c.Pos) < |recs|
    ensures got ==> Polling(c, out, recs, p0, all, n0) && c.Pos == old(c.Pos) + 1
    ensures got ==> n < |all| && entry == all[n] && name == key(entry) && NoNul(name)
  {
    ghost var k := c.Pos;
    got, entry, name := Next(c);
    if got {
      PendingAt(all, n0, recs, p0, k);
    }
  }

  /** One turn of the first loop: poll the copy c, and pass the record polled to TakeRecord. */
  method TakeNext(c: ArFile, ht: HashTable, out: array<byte>, o: nat, ghost orig: seq<byte>, ghost all: seq<seq<byte>>,
                  ghost n0: nat, ghost recs: seq<seq<byte>>, ghost p0: nat, ghost n: nat, ghost key: seq<byte> -> seq<byte>)
      returns (got: bool, o2: nat, ghost n2: nat)
    requires Polling(c, out, recs, p0, all, n0) && n == n0 + (c.Pos - p0)
    requires Agrees(key, all) && Fits(all, out.Length, key) && Progress(ht, out, orig, all[..n], o, key)
    modifies c`cur, c`Pos, out, ht.entries
    ensures got <==> old(c.Pos) < |recs|
    ensures got ==> Polling(c, out, recs, p0, all, n0) && c.Pos == old(c.Pos) + 1 && n2 == n + 1
    ensures !got ==> n2 == n0 + |recs[p0..]|
    ensures Progress(ht, out, orig, all[..n2], o2, key)
  {
    var entry, name;
    got, entry, name := NextPending(c, out, all, n0, recs, p0, n, key);
    // The poll leaves the set and the output as they were.
    assert Progress(ht, out, orig, all[..n], o, key) == old(Progress(ht, out, orig, all[..n], o, key));
    if !got {
      o2, n2 := o, n;
      return;
    }
    o2 := TakePolled(c, entry, name, ht, out, o, orig, all, n0, recs, p0, n, key);
    n2 := n + 1;
  }

  /** TakeRecord on the record n that the copy c polled; c and its buffer stay as they were. */
  method TakePolled(c: ArFile, entry: seq<byte>, name: seq<byte>, ht: HashTable, out: array<byte>, o: nat,
                    ghost orig: seq<byte>, ghost all: seq<seq<byte>>, ghost n0: nat, ghost recs: seq<seq<byte>>,
                    ghost p0: nat, ghost n: nat, ghost key: seq<byte> -> seq<byte>)
      returns (o2: nat)
    requires Polling(c, out, recs, p0, all, n0)
    requires n < |all| && entry == all[n] && name == key(entry) && NoNul(name)
    requires Fits(all, out.Length, key) && Progress(ht, out, orig, all[..n], o, key)
    modifies out, ht.entries
    ensures Polling(c, out, recs, p0, all, n0) && Progress(ht, out, orig, all[..n + 1], o2, key)
  {
    o2 := TakeRecord(entry, name, ht, out, o, orig, all, n, key);
    assert Polling(c, out, recs, p0, all, n0) == old(Polling(c, out, recs, p0, all, n0));
  }

  /**
   * The first loop of the merge for one secondary archive: `curAr = arrayOfArs[i]`,
   * then TakeNext until the poll gives NULL. The pending records of a are items
   * n0 onward of all.
   */
  method TakeArchive(a: ArFile, ht: HashTable, out: array<byte>, o: nat, ghost orig: seq<byte>,
                     ghost all: seq<seq<byte>>, ghost n0: nat, ghost pend: seq<seq<byte>>, ghost key: seq<byte> -> seq<byte>)
      returns (o2: nat, ghost n: nat)
    requires a.Valid() && a.CursorOk() && out != a.data && pend == Pending(a)
    requires Agrees(key, all) && Fits(all, out.Length, key)
    requires n0 + |pend| <= |all| && all[n0 .. n0 + |pend|] == pend
    requires Progress(ht, out, orig, all[..n0], o, key)
    modifies out, ht.entries
    ensures n == n0 + |pend| && Progress(ht, out, orig, all[..n], o2, key)
  {
    ghost var recs := a.Records;
    ghost var p0 := a.Pos;
    var c := CopyPolling(a, out, all, n0, pend);
    n := n0;
    o2 := o;
    while true
      invariant Polling(c, out, recs, p0, all, n0) && n == n0 + (c.Pos - p0)
      invariant Progress(ht, out, orig, all[..n], o2, key)
      decreases |recs| - c.Pos
    {
      var got;
      got, o2, n := TakeNext(c, ht, out, o2, orig, all, n0, recs, p0, n, key);
      if !got {
        break;
      }
    }
  }

  /** The first j + 1 main records leave what the first j left, plus record j when its name was not seen. */
  lemma UnseenStep<R>(pend: seq<R>, j: nat, seen: set<seq<byte>>, key: R -> seq<byte>)
    requires j < |pend|
    ensures Unseen(pend[..j + 1], seen, key) == Unseen(pend[..j], seen, key) + (if key(pend[j]) in seen then [] else [pend[j]])
  {
    assert pend[..j + 1][..j] == pend[..j];
  }

  /** A main record whose name was seen leaves the output as it is. */
  lemma MainSkip(f: seq<seq<byte>>, pend: seq<seq<byte>>, j: nat, seen: set<seq<byte>>, key: seq<byte> -> seq<byte>)
    requires j < |pend| && key(pend[j]) in seen
    ensures f + Unseen(pend[..j + 1], seen, key) == f + Unseen(pend[..j], seen, key)
  {
    UnseenStep(pend, j, seen, key);
    assert Unseen(pend[..j], seen, key) + [] == Unseen(pend[..j], seen, key);
  }

  /** A main record whose name was not seen is appended, and the output has room for it. */
  lemma MainKeep(f: seq<seq<byte>>, pend: seq<seq<byte>>, j: nat, seen: set<seq<byte>>, key: seq<byte> -> seq<byte>,
                 o: nat, size: nat)
    requires j < |pend| && key(pend[j]) !in seen
    requires o == HeaderSize + |Flatten(f + Unseen(pend[..j], seen, key))|
    requires HeaderSize + |Flatten(f + Unseen(pend, seen, key))| <= size
    ensures f + Unseen(pend[..j + 1], seen, key) == (f + Unseen(pend[..j], seen, key)) + [pend[j]]
    ensures o + |pend[j]| <= size
  {
    var u := Unseen(pend[..j], seen, key);
    UnseenStep(pend, j, seen, key);
    assert f + (u + [pend[j]]) == (f + u) + [pend[j]];
    assert pend == pend[..j + 1] + pend[j + 1..];
    UnseenPrefix(pend[..j + 1], pend[j + 1..], seen, key);
    assert f + Unseen(pend[..j + 1], seen, key) <= f + Unseen(pend, seen, key);
    FlattenPrefix(f + Unseen(pend[..j + 1], seen, key), f + Unseen(pend, seen, key));
    FlattenAppend(f + u, [pend[j]]);
    assert Flatten([pend[j]]) == pend[j] + Flatten([]);
  }

  /**
   * One pass of the second loop, on main record j of pend: copies the record to
   * the output unless the set holds its name. Nothing is registered.
   */
  method MainRecord(entry: seq<byte>, name: seq<byte>, ht: HashTable, out: array<byte>, o: nat, ghost orig: seq<byte>,
                    ghost f: seq<seq<byte>>, ghost seen: set<seq<byte>>, ghost pend: seq<seq<byte>>, ghost j: nat,
                    ghost key: seq<byte> -> seq<byte>)
      returns (o2: nat)
    requires j < |pend| && entry == pend[j] && name == key(entry) && NoNul(name)
    requires ht.Valid() && ht.Keys() == seen
    requires HeaderSize + |Flatten(f + Unseen(pend, seen, key))| <= out.Length
    requires OutHolds(out, orig, f + Unseen(pend[..j], seen, key), o)
    modifies out
    ensures OutHolds(out, orig, f + Unseen(pend[..j + 1], seen, key), o2)
  {
    var found := ht.Exists(name);
    if found {
      MainSkip(f, pend, j, seen, key);
      o2 := o;
    } else {
      MainKeep(f, pend, j, seen, key, o, out.Length);
      o2 := Emit(out, o, entry, orig, f + Unseen(pend[..j], seen, key));
    }
  }

  /** One turn of the second loop: poll the copy c of the main archive, and pass the record polled to MainRecord. */
  method MainNext(c: ArFile, ht: HashTable, out: array<byte>, o: nat, ghost orig: seq<byte>, ghost f: seq<seq<byte>>,
                  ghost seen: set<seq<byte>>, ghost pend: seq<seq<byte>>, ghost recs: seq<seq<byte>>, ghost p0: nat,
                  ghost j: nat, ghost key: seq<byte> -> seq<byte>)
      returns (got: bool, o2: nat, ghost j2: nat)
    requires Polling(c, out, recs, p0, pend, 0) && j == c.Pos - p0 && Agrees(key, pend)
    requires ht.Valid() && ht.Keys() == seen && HeaderSize + |Flatten(f + Unseen(pend, seen, key))| <= out.Length
    requires OutHolds(out, orig, f + Unseen(pend[..j], seen, key), o)
    modifies c`cur, c`Pos, out
    ensures got <==> old(c.Pos) < |recs|
    ensures got ==> Polling(c, out, recs, p0, pend, 0) && c.Pos == old(c.Pos) + 1 && j2 == j + 1
    ensures !got ==> j2 == |recs| - p0
    ensures OutHolds(out, orig, f + Unseen(pend[..j2], seen, key), o2)
  {
    var entry, name;
    got, entry, name := NextPending(c, out, pend, 0, recs, p0, j, key);
    if !got {
      // The poll leaves the output as it was.
      assert OutHolds(out, orig, f + Unseen(pend[..j], seen, key), o) ==
        old(OutHolds(out, orig, f + Unseen(pend[..j], seen, key), o));
      o2, j2 := o, j;
      return;
    }
    label polled:
    o2 := MainRecord(entry, name, ht, out, o, orig, f, seen, pend, j, key);
    // Copying the record leaves the copy c and its buffer as they were.
    assert Polling(c, out, recs, p0, pend, 0) == old@polled(Polling(c, out, recs, p0, pend, 0));
    j2 := j + 1;
  }

  /**
   * The second loop of the merge: `curAr = mainAr`, then MainNext until the
   * poll gives NULL. The output already holds the records f.
   */
  method TakeMain(m: ArFile, ht: HashTable, out: array<byte>, o: nat, ghost orig: seq<byte>, ghost f: seq<seq<byte>>,
                  ghost seen: set<seq<byte>>, ghost pend: seq<seq<byte>>, ghost key: seq<byte> -> seq<byte>)
      returns (o2: nat)
    requires m.Valid() && m.CursorOk() && out != m.data && pend == Pending(m) && Agrees(key, pend)
    requires ht.Valid() && ht.Keys() == seen && HeaderSize + |Flatten(f + Unseen(pend, seen, key))| <= out.Length
    requires OutHolds(out, orig, f, o)
    modifies out
    ensures OutHolds(out, orig, f + Unseen(pend, seen, key), o2)
  {
    ghost var recs := m.Records;
    ghost var p0 := m.Pos;
    assert pend[0 .. 0 + |pend|] == pend;
    var c := CopyPolling(m, out, pend, 0, pend);
    ghost var j := 0;
    assert pend[..0] == [] && f + [] == f;
    o2 := o;
    while true
      invariant Polling(c, out, recs, p0, pend, 0) && j == c.Pos - p0
      invariant OutHolds(out, orig, f + Unseen(pend[..j], seen, key), o2)
      decreases |recs| - c.Pos
    {
      var got;
      got, o2, j := MainNext(c, ht, out, o2, orig, f, seen, pend, recs, p0, j, key);
      if !got {
        break;
      }
    }
    assert pend[..j] == pend;
  }

  /** Of a list x + y that is a prefix of all, y sits in all right after x. */
  lemma PrefixSlice<T>(x: seq<T>, y: seq<T>, all: seq<T>)
    requires x + y <= all
    ensures |x| + |y| <= |all| && all[|x| .. |x| + |y|] == y
  {
    assert all[|x| .. |x| + |y|] == (x + y)[|x|..];
  }

  /** List i of ls sits in all, the lists one after the other, right after the lists before it. */
  lemma ConcatSlice<R>(ls: seq<seq<R>>, all: seq<R>, i: nat)
    requires i < |ls| && all == Concat(ls)
    ensures |Concat(ls[..i])| + |ls[i]| == |Concat(ls[..i + 1])| <= |all|
    ensures all[|Concat(ls[..i])| .. |Concat(ls[..i])| + |ls[i]|] == ls[i]
  {
    ConcatPrefix(ls, i);
    PrefixSlice(Concat(ls[..i]), ls[i], all);
  }

  /**
   * One turn of the loop over `arrayOfArs`: TakeArchive on a, the archive i,
   * whose pending records follow, in all, those of the archives before it.
   */
  method TakeIth(a: ArFile, i: nat, ht: HashTable, out: array<byte>, o: nat, ghost orig: seq<byte>,
                 ghost ls: seq<seq<seq<byte>>>, ghost all: seq<seq<byte>>, ghost n: nat, ghost key: seq<byte> -> seq<byte>)
      returns (o2: nat, ghost n2: nat)
    requires a.Valid() && a.CursorOk() && out != a.data && i < |ls| && ls[i] == Pending(a)
    requires all == Concat(ls) && Agrees(key, all) && Fits(all, out.Length, key)
    requires n == |Concat(ls[..i])| <= |all| && Progress(ht, out, orig, all[..n], o, key)
    modifies out, ht.entries
    ensures n2 == |Concat(ls[..i + 1])| <= |all| && Progress(ht, out, orig, all[..n2], o2, key)
  {
    ConcatSlice(ls, all, i);
    o2, n2 := TakeArchive(a, ht, out, o, orig, all, n, ls[i], key);
  }

  /**
   * The loop over `arrayOfArs`: TakeArchive on each archive in turn. The
   * pending records of the archives, one after the other, are all.
   */
  method TakeAll(ars: seq<ArFile>, ht: HashTable, out: array<byte>, o: nat, ghost orig: seq<byte>,
                 ghost ls: seq<seq<seq<byte>>>, ghost all: seq<seq<byte>>, ghost key: seq<byte> -> seq<byte>)
      returns (o2: nat)
    requires |ls| == |ars| && forall i | 0 <= i < |ars| ::
      ars[i].Valid() && ars[i].CursorOk() && out != ars[i].data && ls[i] == Pending(ars[i])
    requires all == Concat(ls) && Agrees(key, all) && Fits(all, out.Length, key)
    requires Progress(ht, out, orig, [], o, key)
    modifies out, ht.entries
    ensures Progress(ht, out, orig, all, o2, key)
  {
    var i := 0;
    ghost var n := 0;
    assert all[..0] == [] && ls[..0] == [];
    o2 := o;
    while i < |ars|
      invariant i <= |ars|
      invariant n == |Concat(ls[..i])| <= |all| && Progress(ht, out, orig, all[..n], o2, key)
    {
      o2, n := TakeIth(ars[i], i, ht, out, o2, orig, ls, all, n, key);
      i := i + 1;
    }
    assert ls[..i] == ls;
    assert all[..n] == all;
  }

  /** The header `siswa_arMergeMul` writes: zero, 16, 20 and 64. */
  lemma HeaderStep(before: seq<byte>, after: seq<byte>)
    requires Placed(before, after, 0, HeaderBytes())
    ensures Emitted(after, before, [])
  {
    assert after[..HeaderSize] == after[0 .. 0 + HeaderSize];
  }

  /** Room for the merged archive is room for the records the first loop keeps. */
  lemma MergedFits(ls: seq<seq<seq<byte>>>, main: seq<seq<byte>>, size: nat)
    requires |NamesOf(Concat(ls), Key)| <= TableCapacity && HeaderSize + |Flatten(Merged(ls, main))| <= size
    ensures Fits(Concat(ls), size, Key)
  {
    FlattenAppend(FirstWins(Concat(ls), Key), Unseen(main, NamesOf(Concat(ls), Key), Key));
  }

  /**
   * The start of `siswa_arMergeMul`: an empty name set of TableCapacity slots
   * (`si_hashtable_make_reserve`) and the archive header at the front of out.
   * The archives are left as they were.
   */
  method Start(out: array<byte>, ghost main: ArFile, ghost ars: seq<ArFile>) returns (ht: HashTable)
    requires main.Valid() && main.CursorOk() && out != main.data && HeaderSize <= out.Length
    requires Ready(ars) && forall i | 0 <= i < |ars| :: out != ars[i].data
    modifies out
    ensures fresh(ht) && fresh(ht.entries) && ht.entries.Length == TableCapacity
    ensures Progress(ht, out, old(out[..]), [], HeaderSize, Key)
    ensures Ready(ars) && Pendings(ars) == old(Pendings(ars))
    ensures main.Valid() && main.CursorOk() && Pending(main) == old(Pending(main))
  {
    ghost var orig := out[..];
    ht := new HashTable.MakeReserve(TableCapacity);
    Write(out, 0, HeaderBytes());
    HeaderStep(orig, out[..]);
  }

  /** The first loop of the merge, which leaves the main archive as it was. */
  method Secondaries(main: ArFile, ars: seq<ArFile>, ht: HashTable, out: array<byte>, ghost orig: seq<byte>,
                     ghost ls: seq<seq<seq<byte>>>, ghost all: seq<seq<byte>>)
      returns (o: nat)
    requires main.Valid() && main.CursorOk() && out != main.data
    requires Ready(ars) && forall i | 0 <= i < |ars| :: out != ars[i].data
    requires ls == Pendings(ars) && all == Concat(ls) && Fits(all, out.Length, Key)
    requires Progress(ht, out, orig, [], HeaderSize, Key)
    modifies out, ht.entries
    ensures Progress(ht, out, orig, all, o, Key)
    ensures main.Valid() && main.CursorOk() && Pending(main) == old(Pending(main))
  {
    PendingsAt(ars);
    o := TakeAll(ars, ht, out, HeaderSize, orig, ls, all, Key);
  }

  /**
   * `siswa_arMergeMul`: writes into out a header and then the merged records
   * of the secondary archives ars and the main archive main, each taken from
   * its cursor on; the bytes of out after them stay as they were. The name set
   * lives only for the call.
   */
  method MergeMul(main: ArFile, ars: seq<ArFile>, out: array<byte>)
    requires main.Valid() && main.CursorOk() && out != main.data
    requires Ready(ars) && forall i | 0 <= i < |ars| :: out != ars[i].data
    requires |NamesOf(Concat(Pendings(ars)), Key)| <= TableCapacity
    requires HeaderSize + |Flatten(Merged(Pendings(ars), Pending(main)))| <= out.Length
    modifies out
    ensures Emitted(out[..], old(out[..]), old(Merged(Pendings(ars), Pending(main))))
  {
    ghost var ls := Pendings(ars);
    ghost var all := Concat(ls);
    ghost var pm := Pending(main);
    ghost var orig := out[..];
    MergedFits(ls, pm, out.Length);
    var ht := Start(out, main, ars);
    var o := Secondaries(main, ars, ht, out, orig, ls, all);
    o := TakeMain(main, ht, out, o, orig, FirstWins(all, Key), NamesOf(all, Key), pm, Key);
    assert Merged(ls, pm) == FirstWins(all, Key) + Unseen(pm, NamesOf(all, Key), Key);
  }
}
