/** pattern_matching: names against patterns with `?` and `*`, upper and lower case alike. */
module Pattern {
  import opened Base

  const QUESTION: byte := 63
  const STAR: byte := 42

  /** A zero-terminated string, without its terminator */
  predicate IsString(s: seq<byte>)
  {
    forall i :: 0 <= i < |s| ==> s[i] != 0
  }

  /** ExCvt: the upper case of the characters from 0x80 on; none of them maps to the terminator. */
  predicate IsCaseTable(ex: seq<byte>)
  {
    |ex| == 0x80 && IsString(ex)
  }

  /** The case folding of get_achar */
  function Upper(ex: seq<byte>, c: byte): (u: byte)
    requires IsCaseTable(ex)
    ensures u == 0 <==> c == 0
  {
    var v: byte := if 97 <= c <= 122 then c - 0x20 else c;
    if v >= 0x80 then ex[v - 0x80] else v
  }

  /** What a string pointer points at: the terminator behind the last character */
  function CharAt(s: seq<byte>, i: nat): (c: byte)
    ensures IsString(s) ==> (c == 0 <==> i >= |s|)
  {
    if i < |s| then s[i] else 0
  }

  /** get_achar, without the advance of the pointer */
  function GetChar(ex: seq<byte>, s: seq<byte>, i: nat): (c: byte)
    requires IsCaseTable(ex)
  {
    Upper(ex, CharAt(s, i))
  }

  predicate IsWildcard(c: byte)
  {
    c == QUESTION || c == STAR
  }

  /* The meaning of a pattern */

  /** `piece` is what the pattern character `c` stands for. */
  predicate Stands(ex: seq<byte>, c: byte, piece: seq<byte>)
    requires IsCaseTable(ex)
  {
    if c == STAR then true
    else if c == QUESTION then |piece| == 1
    else |piece| == 1 && Upper(ex, piece[0]) == Upper(ex, c)
  }

  /** Character `i` of the pattern stands for the piece of the name between cuts `i` and `i + 1`. */
  predicate PieceAligns(ex: seq<byte>, pat: seq<byte>, nam: seq<byte>, cuts: seq<nat>, i: nat)
    requires IsCaseTable(ex) && i < |pat| && |cuts| == |pat| + 1
  {
    cuts[i] <= cuts[i + 1] <= |nam| && Stands(ex, pat[i], nam[cuts[i]..cuts[i + 1]])
  }

  /** `cuts` divides the name into one piece for each character of the pattern. */
  predicate Aligns(ex: seq<byte>, pat: seq<byte>, nam: seq<byte>, cuts: seq<nat>)
    requires IsCaseTable(ex)
  {
    && |cuts| == |pat| + 1 && cuts[0] == 0 && cuts[|pat|] == |nam|
    && (forall i :: 0 <= i < |pat| ==> PieceAligns(ex, pat, nam, cuts, i))
  }

  ghost predicate Matches(ex: seq<byte>, pat: seq<byte>, nam: seq<byte>)
    requires IsCaseTable(ex)
  {
    exists cuts :: Aligns(ex, pat, nam, cuts)
  }

  /** The same, character by character */
  ghost predicate Glob(ex: seq<byte>, pat: seq<byte>, nam: seq<byte>)
    requires IsCaseTable(ex)
  {
    if pat == [] then nam == []
    else if pat[0] == STAR then exists k :: 0 <= k <= |nam| && Glob(ex, pat[1..], nam[k..])
    else nam != [] && Stands(ex, pat[0], nam[..1]) && Glob(ex, pat[1..], nam[1..])
  }

  lemma {:induction false} GlobAligns(ex: seq<byte>, pat: seq<byte>, nam: seq<byte>) returns (cuts: seq<nat>)
    requires IsCaseTable(ex) && Glob(ex, pat, nam)
    ensures Aligns(ex, pat, nam, cuts)
  {
    hide Aligns, Stands;
    if pat == [] {
      cuts := NoCuts(ex);
    } else {
      var k := FirstPiece(ex, pat, nam);
      hide Glob;
      var rest := GlobAligns(ex, pat[1..], nam[k..]);
      cuts := JoinCuts(ex, pat, nam, k, rest);
    }
  }

  lemma NoCuts(ex: seq<byte>) returns (cuts: seq<nat>)
    requires IsCaseTable(ex)
    ensures Aligns(ex, [], [], cuts)
  {
    cuts := [0];
  }

  /** The piece that the first character of a pattern stands for */
  lemma FirstPiece(ex: seq<byte>, pat: seq<byte>, nam: seq<byte>) returns (k: nat)
    requires IsCaseTable(ex) && pat != [] && Glob(ex, pat, nam)
    ensures k <= |nam| && Stands(ex, pat[0], nam[..k]) && Glob(ex, pat[1..], nam[k..])
  {
    k := 1;
    if pat[0] == STAR {
      k :| 0 <= k <= |nam| && Glob(ex, pat[1..], nam[k..]);
    }
  }

  lemma JoinCuts(ex: seq<byte>, pat: seq<byte>, nam: seq<byte>, k: nat, rest: seq<nat>) returns (cuts: seq<nat>)
    requires IsCaseTable(ex) && pat != [] && k <= |nam| && Stands(ex, pat[0], nam[..k])
    requires Aligns(ex, pat[1..], nam[k..], rest)
    ensures Aligns(ex, pat, nam, cuts)
  {
    hide Stands;
    cuts := [0] + seq(|rest|, i requires 0 <= i < |rest| => rest[i] + k);
    assert nam[0..k] == nam[..k];
    assert PieceAligns(ex, pat, nam, cuts, 0);
    hide PieceAligns;
    forall i | 0 < i < |pat|
      ensures PieceAligns(ex, pat, nam, cuts, i)
    {
      RestAligns(ex, pat, nam, k, rest, cuts, i);
    }
  }

  lemma RestAligns(ex: seq<byte>, pat: seq<byte>, nam: seq<byte>, k: nat, rest: seq<nat>, cuts: seq<nat>, i: nat)
    requires IsCaseTable(ex) && k <= |nam| && 0 < i < |pat| && |rest| == |pat| && |cuts| == |pat| + 1
    requires cuts[i] == rest[i - 1] + k && cuts[i + 1] == rest[i] + k
    requires PieceAligns(ex, pat[1..], nam[k..], rest, i - 1)
    ensures PieceAligns(ex, pat, nam, cuts, i)
  {
    hide Stands;
    SliceOfRest(nam, k, rest[i - 1], rest[i]);
  }

  lemma SliceOfRest(s: seq<byte>, k: nat, lo: nat, hi: nat)
    requires k <= |s| && lo <= hi <= |s| - k
    ensures s[k..][lo..hi] == s[lo + k..hi + k]
  {
  }

  lemma {:induction false} AlignsGlob(ex: seq<byte>, pat: seq<byte>, nam: seq<byte>, cuts: seq<nat>)
    requires IsCaseTable(ex) && Aligns(ex, pat, nam, cuts)
    ensures Glob(ex, pat, nam)
  {
    if pat != [] {
      var k := cuts[1];
      assert PieceAligns(ex, pat, nam, cuts, 0);
      var rest := seq(|pat|, i requires 0 <= i < |pat| => if cuts[i + 1] >= k then cuts[i + 1] - k else 0);
      AtLeast(ex, pat, nam, cuts);
      forall i | 0 <= i < |pat| - 1
        ensures PieceAligns(ex, pat[1..], nam[k..], rest, i)
      {
        assert PieceAligns(ex, pat, nam, cuts, i + 1);
        SliceOfRest(nam, k, rest[i], rest[i + 1]);
      }
      assert Aligns(ex, pat[1..], nam[k..], rest);
      AlignsGlob(ex, pat[1..], nam[k..], rest);
    }
  }

  lemma AtLeast(ex: seq<byte>, pat: seq<byte>, nam: seq<byte>, cuts: seq<nat>)
    requires IsCaseTable(ex) && Aligns(ex, pat, nam, cuts) && pat != []
    ensures forall i :: 1 <= i <= |pat| ==> cuts[i] >= cuts[1]
  {
    var i := 1;
    while i < |pat|
      invariant 1 <= i <= |pat|
      invariant forall j :: 1 <= j <= i ==> cuts[1] <= cuts[j] <= cuts[i]
    {
      assert PieceAligns(ex, pat, nam, cuts, i);
      i := i + 1;
    }
  }

  lemma GlobIsMatches(ex: seq<byte>, pat: seq<byte>, nam: seq<byte>)
    requires IsCaseTable(ex)
    ensures Glob(ex, pat, nam) <==> Matches(ex, pat, nam)
  {
    if Glob(ex, pat, nam) {
      var cuts := GlobAligns(ex, pat, nam);
    }
    if Matches(ex, pat, nam) {
      var cuts :| Aligns(ex, pat, nam, cuts);
      AlignsGlob(ex, pat, nam, cuts);
    }
  }

  /* The search */

  /** The pattern matches behind `skip` characters of the name, or with `inf` anywhere behind them. */
  ghost predicate Found(ex: seq<byte>, pat: seq<byte>, nam: seq<byte>, skip: nat, inf: bool)
    requires IsCaseTable(ex)
  {
    if inf then exists k :: skip <= k <= |nam| && Glob(ex, pat, nam[k..])
    else skip <= |nam| && Glob(ex, pat, nam[skip..])
  }

  /** A `?` is one more character to skip. */
  lemma QuestionSkips(ex: seq<byte>, pat: seq<byte>, nam: seq<byte>, skip: nat, inf: bool)
    requires IsCaseTable(ex) && pat != [] && pat[0] == QUESTION
    ensures Found(ex, pat, nam, skip, inf) <==> Found(ex, pat[1..], nam, skip + 1, inf)
  {
    if inf {
      if k :| skip <= k <= |nam| && Glob(ex, pat, nam[k..]) {
        assert nam[k..][1..] == nam[k + 1..];
      }
      if k :| skip + 1 <= k <= |nam| && Glob(ex, pat[1..], nam[k..]) {
        assert nam[k - 1..][1..] == nam[k..];
        assert Glob(ex, pat, nam[k - 1..]);
      }
    } else if skip < |nam| {
      assert nam[skip..][1..] == nam[skip + 1..];
    }
  }

  /** A `*` makes the search infinite. */
  lemma StarSearches(ex: seq<byte>, pat: seq<byte>, nam: seq<byte>, skip: nat, inf: bool)
    requires IsCaseTable(ex) && pat != [] && pat[0] == STAR
    ensures Found(ex, pat, nam, skip, inf) <==> Found(ex, pat[1..], nam, skip, true)
  {
    if Found(ex, pat, nam, skip, inf) {
      var k := skip;
      if inf {
        k :| skip <= k <= |nam| && Glob(ex, pat, nam[k..]);
      }
      var j :| 0 <= j <= |nam[k..]| && Glob(ex, pat[1..], nam[k..][j..]);
      assert nam[k..][j..] == nam[k + j..];
    }
    if k :| skip <= k <= |nam| && Glob(ex, pat[1..], nam[k..]) {
      assert nam[skip..][k - skip..] == nam[k..];
      assert Glob(ex, pat, nam[skip..]);
    }
  }

  /** Literal characters at the front of a pattern each need a character of the name. */
  lemma {:induction false} LiteralsNeed(ex: seq<byte>, pat: seq<byte>, n: nat, nam: seq<byte>)
    requires IsCaseTable(ex) && n <= |pat| && (forall i :: 0 <= i < n ==> !IsWildcard(pat[i])) && Glob(ex, pat, nam)
    ensures |nam| >= n
  {
    if n > 0 {
      LiteralsNeed(ex, pat[1..], n - 1, nam[1..]);
    }
  }

  /** pattern_matching: does the name match, behind `skip` characters, or with `inf` anywhere behind them? */
  method PatternMatching(ex: seq<byte>, pat: seq<byte>, nam: seq<byte>, skip: nat, inf: bool) returns (matched: bool)
    requires IsCaseTable(ex) && IsString(pat) && IsString(nam)
    ensures matched <==> Found(ex, pat, nam, skip, inf)
    decreases |pat|, 1
  {
    var n: nat, s: nat := 0, skip;
    while s > 0
      invariant n + s == skip && n <= |nam|
    {
      if GetChar(ex, nam, n) == 0 { return false; }
      n, s := n + 1, s - 1;
    }
    if pat == [] && inf {
      assert Glob(ex, pat, nam[|nam|..]);
      return true;
    }
    while true
      invariant skip <= n <= |nam| && (!inf ==> n == skip)
      invariant forall k :: skip <= k < n ==> !Glob(ex, pat, nam[k..])
      decreases |nam| - n
    {
      var nc: byte;
      matched, nc := MatchFrom(ex, pat, nam, n);
      if matched { return; }
      if !inf || nc == 0 { return; }
      n := n + 1;
    }
  }

  /** The body of the outer loop: one attempt, at position `n`; `nc` is the character of the name where it ended. */
  method MatchFrom(ex: seq<byte>, pat: seq<byte>, nam: seq<byte>, n: nat) returns (matched: bool, nc: byte)
    requires IsCaseTable(ex) && IsString(pat) && IsString(nam) && n <= |nam|
    ensures matched <==> Glob(ex, pat, nam[n..])
    ensures !matched && nc == 0 ==> forall k :: n < k <= |nam| ==> !Glob(ex, pat, nam[k..])
    ensures !matched && nc != 0 ==> n < |nam|
    decreases |pat|, 0
  {
    var pp, np := 0, n;
    while true
      invariant pp <= |pat| && np == n + pp <= |nam|
      invariant forall i :: 0 <= i < pp ==> !IsWildcard(pat[i])
      invariant Glob(ex, pat, nam[n..]) <==> Glob(ex, pat[pp..], nam[np..])
      decreases |pat| - pp
    {
      if IsWildcard(CharAt(pat, pp)) {
        var nm: nat, nx: bool, q: nat;
        nm, nx, q := WildcardGroup(ex, pat, pp, nam[np..]);
        matched := PatternMatching(ex, pat[q..], nam[np..], nm, nx);
        nc := CharAt(nam, np);
        break;
      }
      var pc := GetChar(ex, pat, pp);
      nc := GetChar(ex, nam, np);
      LiteralStep(ex, pat[pp..], nam[np..]);
      if pc != nc { matched := false; break; }
      if pc == 0 { return true, nc; }
      assert pat[pp..][1..] == pat[pp + 1..] && nam[np..][1..] == nam[np + 1..];
      pp, np := pp + 1, np + 1;
    }
    if !matched && nc == 0 {
      forall k | n < k <= |nam|
        ensures !Glob(ex, pat, nam[k..])
      {
        if Glob(ex, pat, nam[k..]) {
          LiteralsNeed(ex, pat, pp, nam[k..]);
        }
      }
    }
  }

  /** Off the wildcards, one character of the pattern stands for one of the name. */
  lemma LiteralStep(ex: seq<byte>, pat: seq<byte>, nam: seq<byte>)
    requires IsCaseTable(ex) && IsString(pat) && IsString(nam) && (pat != [] ==> !IsWildcard(pat[0]))
    ensures var pc, nc := GetChar(ex, pat, 0), GetChar(ex, nam, 0);
            if pc != nc then !Glob(ex, pat, nam)
            else if pc == 0 then Glob(ex, pat, nam)
            else pat != [] && nam != [] && (Glob(ex, pat, nam) <==> Glob(ex, pat[1..], nam[1..]))
  {
  }

  /** Counts the `?`s of a group of wildcards and notes whether there is a `*`; `q` is where the group ends. */
  method WildcardGroup(ex: seq<byte>, pat: seq<byte>, pp: nat, ghost nam: seq<byte>) returns (nm: nat, nx: bool, q: nat)
    requires IsCaseTable(ex) && pp < |pat| && IsWildcard(pat[pp])
    ensures pp < q <= |pat|
    ensures Glob(ex, pat[pp..], nam) <==> Found(ex, pat[q..], nam, nm, nx)
  {
    nm, nx, q := 0, false, pp;
    assert nam[0..] == nam;
    while q == pp || IsWildcard(CharAt(pat, q))
      invariant pp <= q <= |pat|
      invariant Glob(ex, pat[pp..], nam) <==> Found(ex, pat[q..], nam, nm, nx)
      decreases |pat| - q
    {
      assert pat[q..][1..] == pat[q + 1..];
      if pat[q] == QUESTION {
        QuestionSkips(ex, pat[q..], nam, nm, nx);
        nm := nm + 1;
      } else {
        StarSearches(ex, pat[q..], nam, nm, nx);
        nx := true;
      }
      q := q + 1;
    }
  }

  /** The call that f_findnext_ makes: exactly the names that the pattern stands for match. */
  method MatchName(ex: seq<byte>, pat: seq<byte>, nam: seq<byte>) returns (matched: bool)
    requires IsCaseTable(ex) && IsString(pat) && IsString(nam)
    ensures matched <==> Matches(ex, pat, nam)
  {
    matched := PatternMatching(ex, pat, nam, 0, false);
    assert nam[0..] == nam;
    GlobIsMatches(ex, pat, nam);
  }
}
