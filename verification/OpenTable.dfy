/** The list of open inodes: inode_open, inode_reopen, inode_remove,
    inode_deny_write, inode_allow_write and inode_close, against the table of
    openers in the file system's state machine. */
module OpenTable {
  import opened Basics
  import opened Blocks
  import opened Inodes
  import opened Volumes
  import opened Allocation
  import opened FileSystem
  import opened FileRuns
  import opened InodeOps
  import BufferCache

  /** Opening a sector twice gives the same inode, so no sector is listed twice. */
  ghost predicate Distinct(inodes: seq<Inode>) {
    forall i, j :: 0 <= i < j < |inodes| ==> inodes[i].sector != inodes[j].sector
  }

  ghost function Info(inode: Inode): OpenInode
    reads inode
  {
    OpenInode(inode.openCnt, inode.removed, inode.denyWriteCnt)
  }

  ghost function SectorSet(inodes: seq<Inode>): set<Word> {
    set x | x in inodes :: x.sector
  }

  /** TABLE lists exactly the inodes, by sector. */
  ghost predicate Lists(inodes: seq<Inode>, table: map<Word, OpenInode>)
    reads inodes
  {
    && table.Keys == SectorSet(inodes)
    && (forall x :: x in inodes ==> x.sector in table && table[x.sector] == Info(x))
  }

  /** Taking one inode off the list takes its sector out of the set. */
  lemma Unlinked(inodes: seq<Inode>, i: nat)
    requires Distinct(inodes) && i < |inodes|
    ensures var rest := inodes[..i] + inodes[i + 1..];
            && Distinct(rest) && SectorSet(rest) == SectorSet(inodes) - {inodes[i].sector}
            && (forall x :: x in rest <==> x in inodes && x.sector != inodes[i].sector)
  {
    var rest := inodes[..i] + inodes[i + 1..];
    forall x ensures x in rest <==> x in inodes && x.sector != inodes[i].sector {
      if x in inodes && x.sector != inodes[i].sector {
        var k :| 0 <= k < |inodes| && inodes[k] == x;
        assert x == rest[if k < i then k else k - 1];
      }
    }
  }

  lemma Pushed(inodes: seq<Inode>, inode: Inode)
    requires Distinct(inodes) && inode.sector !in SectorSet(inodes)
    ensures Distinct([inode] + inodes) && SectorSet([inode] + inodes) == SectorSet(inodes) + {inode.sector}
  {
    forall k | 0 <= k < |inodes| ensures inodes[k].sector != inode.sector {
      assert inodes[k] in inodes;
    }
  }

  class InodeTable {
    const store: Store
    var inodes: seq<Inode>
    ghost var table: map<Word, OpenInode>

    ghost predicate Valid()
      reads this, inodes
    {
      && Distinct(inodes)
      && (forall x :: x in inodes ==> x.openCnt > 0)
      && Lists(inodes, table)
    }

    constructor (s: Store)
      ensures store == s && Valid() && table == map[] && inodes == []
    {
      store := s;
      inodes := [];
      table := map[];
    }

    /** The position of SECTOR's inode in the list, or -1. */
    method FindOpen(sector: Word) returns (i: int)
      requires Valid()
      ensures if sector in table then 0 <= i < |inodes| && inodes[i].sector == sector else i == -1
    {
      i := 0;
      while i < |inodes|
        invariant 0 <= i <= |inodes|
        invariant forall k :: 0 <= k < i ==> inodes[k].sector != sector
      {
        if inodes[i].sector == sector {
          return i;
        }
        i := i + 1;
      }
      i := -1;
    }

    /** inode_reopen. */
    method Reopen(inode: Inode)
      requires Valid() && inode in inodes
      modifies this`table, inode`openCnt
      ensures Valid() && table == Reopened(old(table), Open(inode.sector))
      ensures inode.openCnt == old(inode.openCnt) + 1
    {
      inode.openCnt := inode.openCnt + 1;
      table := Reopened(table, Open(inode.sector));
    }

    /** list_push_front of a new inode with one opener. */
    method Link(inode: Inode)
      requires Valid() && inode.sector !in table && Info(inode) == OpenInode(1, false, 0)
      modifies this`inodes, this`table
      ensures Valid() && inodes == [inode] + old(inodes)
      ensures table == Reopened(old(table), Open(inode.sector))
    {
      hide SectorSet, Distinct;
      Pushed(inodes, inode);
      inodes := [inode] + inodes;
      table := Reopened(table, Open(inode.sector));
    }

    /** inode_open; MEMORY says whether there is room for another inode in memory. */
    method OpenAt(sector: Word, memory: bool) returns (inode: Inode?)
      requires Valid() && store.cache.Valid() && sector < |store.cache.disk|
      modifies this`inodes, this`table, inodes`openCnt, store.cache`disk, store.cache.slots
      ensures store.cache.Valid() && store.cache.Contents() == old(store.cache.Contents())
      ensures Valid() && (inode == null <==> sector !in old(table) && !memory)
      ensures inode == null ==> inodes == old(inodes) && table == old(table)
      ensures inode != null ==> table == Reopened(old(table), Open(sector)) && inode in inodes && inode.sector == sector
      ensures sector in old(table) ==> inodes == old(inodes) && inode != null && inode.openCnt == old(inode.openCnt) + 1
      ensures forall x :: x in old(inodes) && x != inode ==> x.openCnt == old(x.openCnt)
      ensures sector !in old(table) && inode != null ==>
                && fresh(inode) && inodes == [inode] + old(inodes)
                && inode.openCnt == 1 && !inode.removed && inode.denyWriteCnt == 0
                && inode.data == DecodeInode(old(store.cache.Contents()[sector]))
    {
      hide BufferCache.View, BufferCache.Coherent, BufferCache.ServedRead, DecodeInode, SectorSet, Distinct, Reopened;
      var i := FindOpen(sector);
      if i >= 0 {
        inode := inodes[i];
        Reopen(inode);
      } else if !memory {
        inode := null;
      } else {
        var b, _ := store.cache.Read(sector);
        var newInode := new Inode(sector, DecodeInode(b));
        Link(newInode);
        inode := newInode;
      }
    }

    method MarkRemoved(inode: Inode)
      requires Valid() && inode in inodes
      modifies this`table, inode`removed
      ensures Valid() && table == Reopened(old(table), Remove(inode.sector)) && inode.removed
    {
      inode.removed := true;
      table := Reopened(table, Remove(inode.sector));
    }

    method Deny(inode: Inode)
      requires Valid() && inode in inodes && inode.denyWriteCnt < inode.openCnt
      modifies this`table, inode`denyWriteCnt
      ensures Valid() && table == Reopened(old(table), DenyWrite(inode.sector))
      ensures inode.denyWriteCnt == old(inode.denyWriteCnt) + 1
    {
      inode.denyWriteCnt := inode.denyWriteCnt + 1;
      table := Reopened(table, DenyWrite(inode.sector));
    }

    method Allow(inode: Inode)
      requires Valid() && inode in inodes && 0 < inode.denyWriteCnt <= inode.openCnt
      modifies this`table, inode`denyWriteCnt
      ensures Valid() && table == Reopened(old(table), AllowWrite(inode.sector))
      ensures inode.denyWriteCnt == old(inode.denyWriteCnt) - 1
    {
      inode.denyWriteCnt := inode.denyWriteCnt - 1;
      table := Reopened(table, AllowWrite(inode.sector));
    }

    /** list_remove on the inode's list element. */
    method Unlink(inode: Inode)
      requires Valid() && inode in inodes
      modifies this`inodes, this`table
      ensures Valid() && table == old(table) - {inode.sector}
      ensures forall x :: x in inodes <==> x in old(inodes) && x != inode
    {
      var i := FindOpen(inode.sector);
      Unlinked(inodes, i);
      inodes := inodes[..i] + inodes[i + 1..];
      table := table - {inode.sector};
    }

    /** inode_close by an opener that is not the last. */
    method Leave(inode: Inode)
      requires Valid() && inode in inodes && inode.openCnt > 1
      modifies this`table, inode`openCnt
      ensures Valid() && table == Reopened(old(table), Close(inode.sector))
      ensures inode.openCnt == old(inode.openCnt) - 1
    {
      inode.openCnt := inode.openCnt - 1;
      table := Reopened(table, Close(inode.sector));
    }

    /** inode_close: the last opener of a removed file releases its sectors. */
    method CloseInode(inode: Inode)
      requires Valid() && inode in inodes && store.Valid() && store.mapFile != inode && Small(inode.data)
      requires inode.removed ==>
                 && (var xs := Released(inode.sector, inode.data, store.Vol().disk);
                     NoDup(xs) && Marked(store.Vol().used, xs) && 0 !in xs && Disjoint(xs, MapOwned(store.Vol())))
                 && (Sectors(inode.data.length) > 123 ==>
                       inode.data.indirect < |store.cache.disk| && inode.data.indirect !in MapOwned(store.Vol()))
      modifies this`inodes, this`table, inode`openCnt, store.cache`disk, store.cache.slots, store.freeMap.words
      ensures Valid() && store.Valid()
      ensures table == Reopened(old(table), Close(inode.sector))
      ensures inode.openCnt == old(inode.openCnt) - 1
      ensures forall x :: x in inodes <==> x in old(inodes) && (x != inode || inode.openCnt > 0)
      ensures Sane(old(store.Vol()))
      ensures store.Vol()
              == if Deletes(old(table), Close(inode.sector))
                 then ReleaseAll(old(store.Vol()), Released(inode.sector, inode.data, old(store.Vol().disk)))
                 else old(store.Vol())
    {
      hide BufferCache.View, BufferCache.Coherent, MapOk, MapOwned, ReleaseAll, Released, NoDup, Marked, Disjoint,
        SectorSet, Distinct;
      MapOkSane(store.Vol());
      if inode.openCnt == 1 {
        Unlink(inode);
        inode.openCnt := 0;
        if inode.removed {
          store.ReleaseInode(inode);
        }
      } else {
        Leave(inode);
      }
    }
  }
}
