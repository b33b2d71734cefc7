/** The block device behind disk_read_ and disk_write_. */
module Disk {
  import opened Base

  /**
   * A device of 512-byte sectors. A call may fail; a failed transfer leaves
   * arbitrary data in the range it was aimed at and touches nothing else.
   * Nothing outside the device can be transferred. A `reliable` device serves
   * every request that lies inside it.
   */
  class BlockDevice {
    var sectors: seq<Sector>
    const reliable: bool

    constructor (contents: seq<Sector>, reliable: bool)
      ensures sectors == contents && this.reliable == reliable
    {
      sectors := contents;
      this.reliable := reliable;
    }

    /** disk_read_: `count` sectors from `sector` on go to `buff` from offset `at` on. */
    method Read(buff: array<byte>, at: nat, sector: nat, count: nat) returns (ok: bool)
      requires at + SECTOR_SIZE * count <= buff.Length
      modifies buff
      ensures buff[..at] == old(buff[..at])
      ensures buff[at + SECTOR_SIZE * count..] == old(buff[at + SECTOR_SIZE * count..])
      ensures ok ==> sector + count <= |sectors|
      ensures ok ==> forall k :: 0 <= k < SECTOR_SIZE * count ==>
                buff[at + k] == sectors[sector + k / SECTOR_SIZE][k % SECTOR_SIZE]
      ensures ok && count == 1 ==> buff[at..at + SECTOR_SIZE] == sectors[sector]
      ensures reliable && sector + count <= |sectors| ==> ok
    {
      ok := sector + count <= |sectors|;
      if !reliable {
        ok := *;
        ok := ok && sector + count <= |sectors|;
      }
      var k := 0;
      while k < SECTOR_SIZE * count
        invariant 0 <= k <= SECTOR_SIZE * count
        invariant buff[..at] == old(buff[..at])
        invariant buff[at + SECTOR_SIZE * count..] == old(buff[at + SECTOR_SIZE * count..])
        invariant ok ==> forall j :: 0 <= j < k ==>
                    buff[at + j] == sectors[sector + j / SECTOR_SIZE][j % SECTOR_SIZE]
      {
        if ok {
          buff[at + k] := sectors[sector + k / SECTOR_SIZE][k % SECTOR_SIZE];
        } else {
          var junk: byte := *;
          buff[at + k] := junk;
        }
        k := k + 1;
      }
      if ok && count == 1 {
        forall j | 0 <= j < SECTOR_SIZE
          ensures buff[at + j] == sectors[sector][j]
        {
          assert j / SECTOR_SIZE == 0;
        }
      }
    }

    /** disk_write_: the sectors from `sector` on take the bytes of `data`. */
    method Write(data: seq<byte>, sector: nat, count: nat) returns (ok: bool)
      requires |data| == SECTOR_SIZE * count
      modifies this
      ensures |sectors| == |old(sectors)|
      ensures forall s :: 0 <= s < |sectors| && !(sector <= s < sector + count) ==> sectors[s] == old(sectors)[s]
      ensures ok ==> sector + count <= |sectors|
      ensures ok ==> forall s :: sector <= s < sector + count ==>
                sectors[s] == data[(s - sector) * SECTOR_SIZE..(s - sector + 1) * SECTOR_SIZE]
      ensures reliable && sector + count <= |sectors| ==> ok
    {
      ok := sector + count <= |sectors|;
      if !reliable {
        ok := *;
        ok := ok && sector + count <= |sectors|;
      }
      var i := 0;
      while i < count && sector + i < |sectors|
        invariant 0 <= i <= count
        invariant |sectors| == |old(sectors)|
        invariant forall s :: 0 <= s < |sectors| && !(sector <= s < sector + i) ==> sectors[s] == old(sectors)[s]
        invariant ok ==> forall s :: sector <= s < sector + i ==>
                    sectors[s] == data[(s - sector) * SECTOR_SIZE..(s - sector + 1) * SECTOR_SIZE]
        decreases count - i
      {
        if ok {
          sectors := sectors[sector + i := data[i * SECTOR_SIZE..(i + 1) * SECTOR_SIZE]];
        } else {
          var junk: Sector := *;
          sectors := sectors[sector + i := junk];
        }
        i := i + 1;
      }
    }
  }
}
