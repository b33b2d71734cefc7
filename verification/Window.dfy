/**
 * The one-sector write-back window in front of the disk. `View` is the disk a
 * client of the window sees: the device overlaid with a dirty window, with the
 * second FAT copy left out (it is written behind the client's back).
 */
module Window {
  import opened Base
  import opened FatTable

  /** What sector `s` holds for a client of the window */
  function ViewAt(g: Geometry, secs: seq<Sector>, dirty: bool, winsect: nat, win: Sector, s: nat): (r: Sector)
    requires s < |secs|
  {
    if IsMirror(g, s) then Zeros(SECTOR_SIZE)
    else if dirty && s == winsect then win
    else secs[s]
  }

  function View(g: Geometry, secs: seq<Sector>, dirty: bool, winsect: nat, win: Sector): (v: seq<Sector>)
    ensures |v| == |secs|
    ensures forall s :: 0 <= s < |secs| ==> v[s] == ViewAt(g, secs, dirty, winsect, win, s)
  {
    seq(|secs|, s requires 0 <= s < |secs| => ViewAt(g, secs, dirty, winsect, win, s))
  }

  /** Both FAT copies agree, except in a sector the dirty window still has to write. */
  predicate MirrorsAgree(g: Geometry, secs: seq<Sector>, dirty: bool, winsect: nat)
  {
    g.nFats == 2 && g.fatbase + 2 * g.fsize <= |secs| ==>
      && (dirty ==> !IsMirror(g, winsect))
      && forall s :: g.fatbase <= s < g.fatbase + g.fsize ==> (dirty && s == winsect) || secs[s] == secs[s + g.fsize]
  }

  /** Writing the dirty window back does not change the view, even if the device damages the sector. */
  lemma WriteBackView(g: Geometry, secs: seq<Sector>, after: seq<Sector>, winsect: nat, win: Sector, dirty: bool)
    requires winsect < |secs| && |after| == |secs|
    requires forall s :: 0 <= s < |secs| && s != winsect ==> after[s] == secs[s]
    requires dirty || after[winsect] == win
    ensures View(g, after, dirty, winsect, win) == View(g, secs, true, winsect, win)
  {
  }

  /** Writes into the second FAT copy are invisible. */
  lemma MirrorWriteView(g: Geometry, secs: seq<Sector>, after: seq<Sector>, dirty: bool, winsect: nat, win: Sector)
    requires |after| == |secs|
    requires forall s :: 0 <= s < |secs| && !IsMirror(g, s) ==> after[s] == secs[s]
    ensures View(g, after, dirty, winsect, win) == View(g, secs, dirty, winsect, win)
  {
  }

  /** A clean window can be forgotten. */
  lemma CleanView(g: Geometry, secs: seq<Sector>, winsect: nat, win: Sector, winsect': nat, win': Sector)
    ensures View(g, secs, false, winsect', win') == View(g, secs, false, winsect, win)
  {
  }

  /** Storing into the window changes exactly that sector of the view. */
  lemma StoreView(g: Geometry, secs: seq<Sector>, dirty: bool, winsect: nat, win: Sector, win': Sector)
    requires winsect < |secs| && !IsMirror(g, winsect)
    ensures View(g, secs, true, winsect, win') == View(g, secs, dirty, winsect, win)[winsect := win']
  {
  }
}
