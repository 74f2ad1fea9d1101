/** The reverse-map chain: a tagged head and a linked list of three-slot descriptors, refining the sequence
  (and so the multiset) of the entry pointers it holds. */
module RmapChain {
  import opened Sequences

  /** A pointer to a shadow entry; 0 is NULL. */
  type Sptep = nat

  const NULL: Sptep := 0
  const LIST_EXT: nat := 3

  /** struct pte_list_desc. */
  class Desc {
    var sptes: seq<Sptep>
    var more: Desc?

    /** What kmem_cache_zalloc returns. */
    constructor ()
      ensures sptes == [NULL, NULL, NULL] && more == null
    {
      sptes, more := [NULL, NULL, NULL], null;
    }
  }

  /** rmap_head->val: bit zero tells a descriptor from a single entry. */
  datatype Val = Nothing | Single(sptep: Sptep) | Tagged(desc: Desc)

  function ValOf(sptep: Sptep): Val {
    if sptep == NULL then Nothing else Single(sptep)
  }

  // ---------------------------------------------------------------- values

  /** The used slots of a descriptor: at least one, no gap. */
  predicate IsBlock(b: seq<Sptep>) {
    1 <= |b| <= LIST_EXT && forall i | 0 <= i < |b| :: b[i] != NULL
  }

  function Pad(b: seq<Sptep>): (s: seq<Sptep>)
    requires |b| <= LIST_EXT
    ensures |s| == LIST_EXT && s[..|b|] == b && forall i | |b| <= i < LIST_EXT :: s[i] == NULL
  {
    b + seq(LIST_EXT - |b|, _ => NULL)
  }

  /** The entries after entry `i` has been taken out and the last one put in its place. */
  function Closed(b: seq<Sptep>, i: nat): (c: seq<Sptep>)
    requires i < |b|
    ensures |c| == |b| - 1
  {
    b[i := b[|b| - 1]][..|b| - 1]
  }

  function Flat(bs: seq<seq<Sptep>>): seq<Sptep> {
    if bs == [] then [] else bs[0] + Flat(bs[1..])
  }

  lemma {:induction false} FlatConcat(a: seq<seq<Sptep>>, b: seq<seq<Sptep>>)
    ensures Flat(a + b) == Flat(a) + Flat(b)
  {
    if a == [] {
      assert a + b == b;
    } else {
      assert (a + b)[0] == a[0] && (a + b)[1..] == a[1..] + b;
      FlatConcat(a[1..], b);
    }
  }

  lemma FlatMore(bs: seq<seq<Sptep>>, x: Sptep)
    ensures Flat(bs + [[x]]) == Flat(bs) + [x]
  {
    FlatConcat(bs, [[x]]);
    assert Flat([[x]]) == [x] + Flat([[x]][1..]);
  }

  lemma FlatAt(bs: seq<seq<Sptep>>, i: nat)
    requires i < |bs|
    ensures Flat(bs) == Flat(bs[..i]) + bs[i] + Flat(bs[i + 1..])
  {
    assert bs == bs[..i] + bs[i..];
    FlatConcat(bs[..i], bs[i..]);
    assert bs[i..][1..] == bs[i + 1..];
  }

  /** Replacing one block exchanges its entries. */
  lemma FlatUpdate(bs: seq<seq<Sptep>>, i: nat, b: seq<Sptep>)
    requires i < |bs|
    ensures multiset(Flat(bs[i := b])) + multiset(bs[i]) == multiset(Flat(bs)) + multiset(b)
  {
    FlatAt(bs, i);
    var cs := bs[i := b];
    FlatAt(cs, i);
    assert cs[..i] == bs[..i] && cs[i + 1..] == bs[i + 1..];
  }

  lemma FlatDrop(bs: seq<seq<Sptep>>, i: nat)
    requires i < |bs|
    ensures multiset(Flat(Without(bs, i))) + multiset(bs[i]) == multiset(Flat(bs))
  {
    FlatAt(bs, i);
    FlatConcat(bs[..i], bs[i + 1..]);
  }

  lemma {:induction false} FlatLength(bs: seq<seq<Sptep>>)
    requires forall i | 0 <= i < |bs| :: IsBlock(bs[i])
    ensures |bs| <= |Flat(bs)| <= LIST_EXT * |bs|
    ensures |Flat(bs)| == LIST_EXT * |bs| <==> forall i | 0 <= i < |bs| :: |bs[i]| == LIST_EXT
  {
    if bs != [] {
      FlatLength(bs[1..]);
      assert forall i | 0 < i < |bs| :: bs[i] == bs[1..][i - 1];
    }
  }

  /** What pte_list_add returns for a chain of descriptors: it walks over full descriptors that have a successor
    and counts the entries of the one it stops at, unless it had to append a new one. */
  function Walked(bs: seq<seq<Sptep>>): nat {
    if bs == [] then 0
    else if |bs[0]| == LIST_EXT && |bs| > 1 then LIST_EXT + Walked(bs[1..])
    else |bs[0]| % LIST_EXT
  }

  lemma {:induction false} WalkedAt(bs: seq<seq<Sptep>>, k: nat)
    requires k < |bs| && (forall i | 0 <= i < k :: |bs[i]| == LIST_EXT) && (|bs[k]| == LIST_EXT ==> k == |bs| - 1)
    ensures Walked(bs) == LIST_EXT * k + |bs[k]| % LIST_EXT
  {
    if 0 < k {
      WalkedAt(bs[1..], k - 1);
    }
  }

  /** Only the last descriptor has a free slot. */
  predicate RoomAtEnd(bs: seq<seq<Sptep>>) {
    && 0 < |bs| && |bs[|bs| - 1]| < LIST_EXT
    && (forall i | 0 <= i < |bs| - 1 :: |bs[i]| == LIST_EXT)
  }

  /** The comment on pte_list_add promises the number of earlier entries. That is what it returns if and only if
    the last descriptor, and no other, has a free slot; otherwise it returns less. */
  lemma {:induction false} CountExact(bs: seq<seq<Sptep>>)
    requires bs != [] && forall i | 0 <= i < |bs| :: IsBlock(bs[i])
    ensures Walked(bs) <= |Flat(bs)|
    ensures Walked(bs) == |Flat(bs)| <==> RoomAtEnd(bs)
  {
    var rest := bs[1..];
    if |bs[0]| == LIST_EXT && |bs| > 1 {
      assert RoomAtEnd(bs) <==> RoomAtEnd(rest) by {
        RoomBehindFull(bs);
      }
      hide RoomAtEnd, IsBlock;
      CountExact(rest);
    } else if |bs| > 1 {
      hide IsBlock;
      FlatLength(rest);
    }
  }

  lemma RoomBehindFull(bs: seq<seq<Sptep>>)
    requires |bs| > 1 && |bs[0]| == LIST_EXT
    ensures RoomAtEnd(bs) <==> RoomAtEnd(bs[1..])
  {
    assert forall i | 0 < i < |bs| :: bs[i] == bs[1..][i - 1];
  }

  /** With one full descriptor it returns 0. */
  lemma CountShort()
    ensures Walked([[1, 2, 3]]) == 0 && |Flat([[1, 2, 3]])| == 3
  {
    assert [[1, 2, 3]][1..] == [];
  }

  lemma {:induction false} FlatHas(bs: seq<seq<Sptep>>, x: Sptep)
    ensures x in Flat(bs) <==> exists i | 0 <= i < |bs| :: x in bs[i]
  {
    if bs != [] {
      FlatHas(bs[1..], x);
      if x in Flat(bs[1..]) {
        var i :| 0 <= i < |bs[1..]| && x in bs[1..][i];
        assert bs[i + 1] == bs[1..][i];
      }
      if i :| 0 <= i < |bs| && x in bs[i] {
        if 0 < i {
          assert bs[1..][i - 1] == bs[i];
        }
      }
    }
  }

  lemma FilledUpdate(chain: seq<Desc>, blocks: seq<seq<Sptep>>, k: nat, b: seq<Sptep>)
    requires Filled(chain, blocks, k) && k < |chain| && IsBlock(b) && chain[k].sptes == Pad(b)
    ensures Filled(chain, blocks[k := b], -1)
  {
  }

  lemma FilledMore(chain: seq<Desc>, blocks: seq<seq<Sptep>>, d: Desc, sptep: Sptep)
    requires Filled(chain, blocks, -1) && d.sptes == [sptep, NULL, NULL] && sptep != NULL
    ensures Filled(chain + [d], blocks + [[sptep]], -1)
  {
  }

  // ---------------------------------------------------------------- the chain

  /** `chain` lists the descriptors from the head on. */
  ghost predicate Linked(val: Val, chain: seq<Desc>)
    reads chain`more
  {
    && val.Tagged? && 0 < |chain| && val.desc == chain[0]
    && (forall i, j | 0 <= i < j < |chain| :: chain[i] != chain[j] && (j == i + 1 ==> chain[i].more == chain[j]))
    && chain[|chain| - 1].more == null
  }

  /** `blocks` lists what the descriptors hold, except perhaps descriptor `k`. */
  ghost predicate Filled(chain: seq<Desc>, blocks: seq<seq<Sptep>>, k: int)
    reads chain`sptes
  {
    && |chain| == |blocks|
    && (forall i | 0 <= i < |blocks| :: IsBlock(blocks[i]))
    && (forall i | 0 <= i < |chain| && i != k :: chain[i].sptes == Pad(blocks[i]))
  }

  lemma FilledWithout(chain: seq<Desc>, blocks: seq<seq<Sptep>>, k: nat)
    requires Filled(chain, blocks, k) && k < |chain|
    ensures Filled(Without(chain, k), Without(blocks, k), -1)
  {
  }

  class RmapHead {
    var val: Val
    ghost var chain: seq<Desc>
    ghost var blocks: seq<seq<Sptep>>

    ghost predicate Valid()
      reads this, chain
    {
      if val.Tagged? then Linked(val, chain) && Filled(chain, blocks, -1)
      else chain == [] && blocks == [] && (val.Single? ==> val.sptep != NULL)
    }

    ghost function Owned(): set<object>
      reads this
    {
      set d | d in chain
    }

    /** The entries in the order in which the chain is walked. */
    ghost function Contents(): seq<Sptep>
      reads this
    {
      if val.Single? then [val.sptep] else Flat(blocks)
    }

    constructor ()
      ensures Valid() && Contents() == []
    {
      val, chain, blocks := Nothing, [], [];
    }

    /** pte_list_add. */
    method Add(sptep: Sptep) returns (count: nat)
      requires Valid() && sptep != NULL
      modifies this, chain
      ensures Valid() && fresh(Owned() - old(Owned()))
      ensures multiset(Contents()) == old(multiset(Contents())) + multiset{sptep}
      ensures count == old(if val.Tagged? then Walked(blocks) else |Contents()|)
    {
      hide Linked, Filled;
      if val.Nothing? {
        val := Single(sptep);
        return 0;
      }
      if val.Single? {
        Promote(sptep);
        return 1;
      }
      count := AddTagged(sptep);
    }

    /** A chain of descriptors takes one more entry. */
    method AddTagged(sptep: Sptep) returns (count: nat)
      requires Valid() && val.Tagged? && sptep != NULL
      modifies this, chain
      ensures Valid() && fresh(Owned() - old(Owned()))
      ensures multiset(Contents()) == old(multiset(Contents())) + multiset{sptep}
      ensures count == Walked(old(blocks))
    {
      hide Flat, Linked, Filled, Walked, Pad, IsBlock;
      var desc;
      ghost var k;
      desc, count, k := FindRoom();
      if desc.sptes[LIST_EXT - 1] != NULL {
        Append(desc, sptep);
      } else {
        var i := Fill(desc, sptep, k);
        count := count + i;
      }
    }

    /** Two entries need a descriptor. */
    method Promote(sptep: Sptep)
      requires Valid() && val.Single? && sptep != NULL
      modifies this
      ensures Valid() && fresh(chain) && Contents() == [old(val).sptep, sptep]
    {
      var desc := new Desc();
      desc.sptes := [val.sptep, sptep, NULL];
      chain, blocks := [desc], [[val.sptep, sptep]];
      assert Flat(blocks) == [val.sptep, sptep] + Flat(blocks[1..]);
      val := Tagged(desc);
    }

    /** The first free slot takes the new entry. */
    method Fill(desc: Desc, sptep: Sptep, ghost k: nat) returns (i: nat)
      requires Valid() && val.Tagged? && sptep != NULL && k < |chain| && desc == chain[k] && |blocks[k]| < LIST_EXT
      modifies this`blocks, desc`sptes
      ensures Valid() && val == old(val) && i == |old(blocks)[k]|
      ensures multiset(Contents()) == old(multiset(Contents())) + multiset{sptep}
    {
      hide Flat;
      i := 0;
      while desc.sptes[i] != NULL
        invariant 0 <= i <= |blocks[k]|
        decreases LIST_EXT - i
      {
        i := i + 1;
      }
      assert i == |blocks[k]|;
      ghost var bs := blocks;
      Placed(bs, k, sptep);
      desc.sptes := desc.sptes[i := sptep];
      blocks := blocks[k := blocks[k] + [sptep]];
      assert desc.sptes == Pad(blocks[k]);
    }

    /** The first descriptor with a free slot, or the last one. */
    method FindRoom() returns (desc: Desc, count: nat, ghost k: nat)
      requires Valid() && val.Tagged?
      ensures k < |chain| == |blocks| && desc == chain[k] && count == LIST_EXT * k && |desc.sptes| == LIST_EXT
      ensures forall i | 0 <= i < k :: |blocks[i]| == LIST_EXT
      ensures |blocks[k]| <= LIST_EXT && (|blocks[k]| == LIST_EXT ==> k == |chain| - 1)
      ensures desc.sptes[LIST_EXT - 1] != NULL <==> |blocks[k]| == LIST_EXT
      ensures Walked(blocks) == count + |blocks[k]| % LIST_EXT
    {
      hide Flat;
      desc, count, k := val.desc, 0, 0;
      while desc.sptes[LIST_EXT - 1] != NULL && desc.more != null
        invariant k < |chain| && desc == chain[k] && count == LIST_EXT * k
        invariant forall i | 0 <= i < k :: |blocks[i]| == LIST_EXT
        decreases |chain| - k
      {
        assert |blocks[k]| == LIST_EXT && desc.more == if k + 1 < |chain| then chain[k + 1] else null;
        desc, count, k := desc.more, count + LIST_EXT, k + 1;
      }
      assert desc.sptes[..|blocks[k]|] == blocks[k];
      WalkedAt(blocks, k);
      assert desc.more == if k + 1 < |chain| then chain[k + 1] else null;
    }

    /** A new descriptor behind the last one. */
    method Append(desc: Desc, sptep: Sptep)
      requires Valid() && val.Tagged? && sptep != NULL && desc == chain[|chain| - 1]
      modifies this`chain, this`blocks, desc`more
      ensures Valid() && fresh(Owned() - old(Owned()))
      ensures val == old(val) && Contents() == old(Contents()) + [sptep]
    {
      hide Filled, Flat, Pad, IsBlock;
      var d := new Desc();
      d.sptes := d.sptes[0 := sptep];
      desc.more := d;
      FlatMore(blocks, sptep);
      FilledMore(chain, blocks, d, sptep);
      assert Linked(val, chain + [d]);
      hide Linked;
      chain, blocks := chain + [d], blocks + [[sptep]];
    }

    /** pte_list_remove. Asking for an entry that is not there is a BUG: nothing is changed. */
    method Remove(sptep: Sptep) returns (found: bool)
      requires Valid() && sptep != NULL
      modifies this, chain
      ensures Valid() && Owned() <= old(Owned())
      ensures found <==> sptep in old(Contents())
      ensures multiset(Contents()) == old(multiset(Contents())) - multiset{sptep}
      ensures !found ==> Contents() == old(Contents())
    {
      if val.Nothing? {
        return false;
      }
      if val.Single? {
        if val.sptep != sptep {
          return false;
        }
        val := Nothing;
        return true;
      }
      var desc, i, prev;
      ghost var k;
      desc, i, prev, k := Locate(sptep);
      if desc == null {
        return false;
      }
      RemoveEntry(desc, i, prev, k);
      return true;
    }

    /** The search of pte_list_remove: the first slot that holds `sptep`, with the descriptor before it. */
    method Locate(sptep: Sptep) returns (desc: Desc?, i: nat, prev: Desc?, ghost k: nat)
      requires Valid() && val.Tagged? && sptep != NULL
      ensures desc == null <==> sptep !in Contents()
      ensures desc != null ==>
                && k < |chain| == |blocks| && desc == chain[k] && i < |blocks[k]| && blocks[k][i] == sptep
                && prev == (if k == 0 then null else chain[k - 1])
    {
      hide Flat;
      desc, i, prev, k := val.desc, 0, null, 0;
      FlatHas(blocks, sptep);
      while desc != null
        invariant k <= |chain| && desc == (if k < |chain| then chain[k] else null)
        invariant prev == (if k == 0 then null else chain[k - 1])
        invariant forall n | 0 <= n < k :: sptep !in blocks[n]
        decreases |chain| - k
      {
        i := 0;
        while i < LIST_EXT && desc.sptes[i] != NULL
          invariant 0 <= i <= |blocks[k]| && sptep !in blocks[k][..i]
        {
          if desc.sptes[i] == sptep {
            assert sptep in blocks[k];
            return;
          }
          i := i + 1;
        }
        assert blocks[k][..i] == blocks[k];
        assert desc.more == if k + 1 < |chain| then chain[k + 1] else null;
        prev, desc, k := desc, desc.more, k + 1;
      }
    }

    /** pte_list_desc_remove_entry: the last entry of the descriptor takes the place of entry `i`; an empty
      descriptor is unlinked. */
    method RemoveEntry(desc: Desc, i: nat, prev: Desc?, ghost k: nat)
      requires Valid() && val.Tagged? && k < |chain| == |blocks| && desc == chain[k] && i < |blocks[k]|
      requires prev == (if k == 0 then null else chain[k - 1])
      modifies this, chain
      ensures Valid() && Owned() <= old(Owned())
      ensures multiset(Contents()) == old(multiset(Contents())) - multiset{old(blocks[k][i])}
      ensures old(blocks[k][i]) in old(Contents())
    {
      hide Flat, Linked, Filled;
      ghost var b := blocks[k];
      FlatHas(blocks, b[i]);
      var j := TakeSlot(desc, i, k);
      if j == 0 {
        assert b == [b[0]];
        Unlink(desc, prev, k);
      }
    }

    method TakeSlot(desc: Desc, i: nat, ghost k: nat) returns (j: nat)
      requires Valid() && val.Tagged? && k < |chain| == |blocks| && desc == chain[k] && i < |blocks[k]|
      modifies desc`sptes, this`blocks
      ensures Linked(val, chain) && |old(blocks[k])| == j + 1
      ensures j == 0 ==> Filled(chain, blocks, k) && blocks == old(blocks) && desc.sptes == Pad([])
      ensures j != 0 ==> Filled(chain, blocks, -1)
      ensures j != 0 ==> multiset(Flat(blocks)) == old(multiset(Flat(blocks))) - multiset{old(blocks[k][i])}
    {
      assert forall n | 0 <= n < |chain| && n != k :: chain[n] != desc;
      hide Flat, Linked, Pad, IsBlock, Closed;
      ghost var b := blocks[k];
      Taken(blocks, k, i);
      j := MoveDown(desc, i, b);
      assert Filled(chain, blocks, k);
      if j != 0 {
        Shorter(b, i);
        FilledUpdate(chain, blocks, k, Closed(b, i));
        blocks := blocks[k := Closed(b, i)];
      }
    }

    /** Take a descriptor out of the chain. */
    method Unlink(desc: Desc, prev: Desc?, ghost k: nat)
      requires Linked(val, chain) && Filled(chain, blocks, k) && k < |chain| == |blocks| && desc == chain[k]
      requires prev == (if k == 0 then null else chain[k - 1]) && desc.sptes == Pad([])
      modifies this, chain`more
      ensures Valid() && Owned() <= old(Owned())
      ensures multiset(Contents()) + multiset(old(blocks)[k]) == old(multiset(Flat(blocks)))
    {
      hide Flat, Filled, Without, Pad, IsBlock;
      FlatDrop(blocks, k);
      FilledWithout(chain, blocks, k);
      assert desc.more == if k < |chain| - 1 then chain[k + 1] else null;
      if prev == null && desc.more == null {
        val := ValOf(desc.sptes[0]);
      } else if prev != null {
        prev.more := desc.more;
        assert Linked(val, Without(chain, k));
      } else {
        val := Tagged(desc.more);
        assert Linked(val, Without(chain, k));
      }
      hide Linked;
      chain, blocks := Without(chain, k), Without(blocks, k);
    }
  }

  /** The last entry takes the place of entry `i`. */
  method MoveDown(desc: Desc, i: nat, ghost b: seq<Sptep>) returns (j: nat)
    requires IsBlock(b) && desc.sptes == Pad(b) && i < |b|
    modifies desc`sptes
    ensures j == |b| - 1 && desc.sptes == Pad(Closed(b, i))
  {
    j := LIST_EXT - 1;
    while desc.sptes[j] == NULL && i < j
      invariant i <= j < LIST_EXT && |b| - 1 <= j
    {
      j := j - 1;
    }
    desc.sptes := desc.sptes[i := desc.sptes[j]];
    desc.sptes := desc.sptes[j := NULL];
  }

  lemma Shorter(b: seq<Sptep>, i: nat)
    requires IsBlock(b) && i < |b| && 1 < |b|
    ensures IsBlock(Closed(b, i))
  {
  }

  /** struct rmap_iterator. */
  class RmapIterator {
    var desc: Desc?
    var pos: nat

    constructor () {
      desc, pos := null, 0;
    }

    /** The iterator stands on entry `pos` of descriptor `k`. */
    ghost predicate On(h: RmapHead, k: nat)
      reads this, h, h.chain
    {
      && h.Valid() && h.val.Tagged? && k < |h.chain| == |h.blocks|
      && desc == h.chain[k] && pos < |h.blocks[k]|
    }

    /** The entries up to and including the one the iterator stands on. */
    ghost function Seen(h: RmapHead, k: nat): seq<Sptep>
      requires On(h, k)
      reads this, h, h.chain
    {
      Flat(h.blocks[..k]) + h.blocks[k][..pos + 1]
    }

    /** rmap_get_first. */
    method First(h: RmapHead) returns (sptep: Sptep)
      requires h.Valid()
      modifies this
      ensures sptep == NULL <==> h.Contents() == []
      ensures sptep != NULL ==> sptep == h.Contents()[0]
      ensures sptep != NULL && desc == null ==> h.Contents() == [sptep]
      ensures sptep != NULL && desc != null ==> On(h, 0) && Seen(h, 0) == [sptep]
    {
      match h.val
      case Nothing => sptep := NULL;
      case Single(s) => desc, sptep := null, s;
      case Tagged(d) =>
        desc, pos := d, 0;
        assert Flat(h.blocks) == h.blocks[0] + Flat(h.blocks[1..]);
        assert h.chain[0].sptes == Pad(h.blocks[0]);
        sptep := desc.sptes[pos];
    }

    /** rmap_get_next: the entry after the one the iterator stands on, NULL behind the last one. */
    method Next(ghost h: RmapHead, ghost k: nat) returns (sptep: Sptep, ghost n: nat)
      requires desc != null ==> On(h, k)
      modifies this
      ensures old(desc) == null ==> sptep == NULL
      ensures old(desc) != null && sptep == NULL ==> old(Seen(h, k)) == h.Contents()
      ensures sptep != NULL ==> desc != null && On(h, n) && Seen(h, n) == old(Seen(h, k)) + [sptep]
    {
      hide Flat;
      n := k;
      sptep := NULL;
      if desc != null {
        assert h.chain[k].sptes == Pad(h.blocks[k]);
        ghost var b := h.blocks[k];
        if pos < LIST_EXT - 1 {
          pos := pos + 1;
          sptep := desc.sptes[pos];
          if sptep != NULL {
            assert b[..pos + 1] == b[..pos] + [sptep];
            return;
          }
        }
        assert b[..old(pos) + 1] == b;
        assert desc.more == if k + 1 < |h.chain| then h.chain[k + 1] else null;
        Advance(h.blocks, k);
        assert k + 1 == |h.blocks| ==> h.blocks[..k + 1] == h.blocks;
        desc := desc.more;
        if desc != null {
          pos, n := 0, k + 1;
          assert h.chain[n].sptes == Pad(h.blocks[n]);
          sptep := desc.sptes[pos];
        }
      }
    }
  }

  lemma Advance(bs: seq<seq<Sptep>>, k: nat)
    requires k < |bs|
    ensures Flat(bs[..k + 1]) == Flat(bs[..k]) + bs[k]
  {
    FlatAt(bs[..k + 1], k);
    assert bs[..k + 1][..k] == bs[..k];
  }

  /** for_each_rmap_spte visits the entries of the chain, each once and in order. */
  method ForEach(h: RmapHead) returns (visited: seq<Sptep>)
    requires h.Valid()
    ensures visited == h.Contents()
  {
    hide Flat, Linked, Filled;
    var iter := new RmapIterator();
    var sptep := iter.First(h);
    visited := [];
    ghost var k := 0;
    while sptep != NULL
      invariant h.Valid()
      invariant sptep != NULL && iter.desc != null ==> iter.On(h, k) && iter.Seen(h, k) == visited + [sptep]
      invariant sptep != NULL && iter.desc == null ==> h.Contents() == visited + [sptep]
      invariant sptep == NULL ==> visited == h.Contents()
      decreases |h.Contents()| - |visited|
    {
      visited := visited + [sptep];
      if iter.desc != null {
        FlatAt(h.blocks, k);
      }
      sptep, k := iter.Next(h, k);
    }
  }

  lemma Smaller(x: Sptep, before: seq<Sptep>, after: seq<Sptep>)
    requires x in before && multiset(after) == multiset(before) - multiset{x}
    ensures multiset(after) + multiset{x} == multiset(before)
    ensures |after| < |before|
  {
    assert x in multiset(before);
    assert |multiset(after)| == |multiset(before)| - 1;
    assert |multiset(after)| == |after| && |multiset(before)| == |before|;
  }

  /** drop_spte of the first entry. */
  method DropFirst(h: RmapHead, iter: RmapIterator, sptep: Sptep) returns (next: Sptep)
    requires h.Valid() && h.Contents() != [] && sptep == h.Contents()[0] && sptep != NULL
    modifies iter, h, h.Owned()
    ensures h.Valid() && h.Owned() <= old(h.Owned())
    ensures next == NULL <==> h.Contents() == []
    ensures next != NULL ==> next == h.Contents()[0]
    ensures multiset(h.Contents()) + multiset{sptep} == old(multiset(h.Contents()))
    ensures |h.Contents()| < old(|h.Contents()|)
  {
    hide Flat, Linked, Filled, RmapHead.Valid, RmapIterator.On, RmapIterator.Seen;
    ghost var was := h.Contents();
    assert forall i | 0 <= i < |h.chain| :: h.chain[i] in h.Owned();
    var found := h.Remove(sptep);
    Smaller(sptep, was, h.Contents());
    next := iter.First(h);
  }

  /** vmrun_zap_rmapp: every entry is dropped once and the chain is left empty. */
  method ZapChain(h: RmapHead) returns (dropped: seq<Sptep>)
    requires h.Valid()
    modifies h, h.Owned()
    ensures h.Valid() && h.Contents() == []
    ensures multiset(dropped) == old(multiset(h.Contents()))
  {
    hide Flat, Linked, Filled, RmapHead.Valid, RmapHead.Contents, RmapIterator.On, RmapIterator.Seen;
    var iter := new RmapIterator();
    var sptep := iter.First(h);
    dropped := [];
    while sptep != NULL
      invariant h.Valid() && h.Owned() <= old(h.Owned())
      invariant sptep == NULL <==> h.Contents() == []
      invariant sptep != NULL ==> sptep == h.Contents()[0]
      invariant multiset(dropped) + multiset(h.Contents()) == old(multiset(h.Contents()))
      decreases |h.Contents()|
    {
      var next := DropFirst(h, iter, sptep);
      dropped, sptep := dropped + [sptep], next;
    }
  }

  lemma MoveLast(b: seq<Sptep>, i: nat)
    requires IsBlock(b) && i < |b|
    ensures multiset(Closed(b, i)) + multiset{b[i]} == multiset(b)
  {
    var j := |b| - 1;
    var c := b[i := b[j]];
    assert b == b[..j] + [b[j]];
    if i < j {
      assert c[..j] == b[..j][i := b[j]];
    } else {
      assert c[..j] == b[..j];
    }
  }

  lemma Cancel(a: multiset<Sptep>, b: multiset<Sptep>, c: multiset<Sptep>)
    requires a + c == b + c
    ensures a == b
  {
    forall x
      ensures a[x] == b[x]
    {
      assert (a + c)[x] == (b + c)[x];
    }
  }

  lemma Placed(bs: seq<seq<Sptep>>, k: nat, x: Sptep)
    requires k < |bs|
    ensures multiset(Flat(bs[k := bs[k] + [x]])) == multiset(Flat(bs)) + multiset{x}
  {
    FlatUpdate(bs, k, bs[k] + [x]);
    assert multiset(bs[k] + [x]) == multiset{x} + multiset(bs[k]);
    Cancel(multiset(Flat(bs[k := bs[k] + [x]])), multiset(Flat(bs)) + multiset{x}, multiset(bs[k]));
  }

  lemma Taken(bs: seq<seq<Sptep>>, k: nat, i: nat)
    requires k < |bs| && IsBlock(bs[k]) && i < |bs[k]|
    ensures multiset(Flat(bs[k := Closed(bs[k], i)])) == multiset(Flat(bs)) - multiset{bs[k][i]}
  {
    var b := bs[k];
    MoveLast(b, i);
    var c := Closed(b, i);
    FlatUpdate(bs, k, c);
    Cancel(multiset(Flat(bs[k := c])) + multiset{b[i]}, multiset(Flat(bs)), multiset(c));
  }
}
