/**
 The two resource addresses the matches viewer fetches: a room, and the score
 list of one playlist of a room. Each address is also the cache key under
 which the fetched data is kept, so distinct resources must get distinct keys.
 */
module ResourceKeys {
  import opened Decimal
  import NumberFormat

  /** Every room address starts here (the proxy followed by the API's rooms endpoint). */
  const RoomsBase := "https://cors.kotrik.ru/https://osu.ppy.sh/api/v2/rooms/"

  /** The room address: the base followed by the decimal room id. */
  function RoomKey(roomId: nat): (key: string)
    ensures RoomsBase <= key
    ensures AllDigits(key[|RoomsBase|..]) && |key| > |RoomsBase|
    ensures ParseDecimal(key[|RoomsBase|..]) == roomId
  {
    RoomsBase + DecimalDigits(roomId)
  }

  const PlaylistSegment := "/playlist/"
  const ScoresSegment := "/scores"

  /** The part of a score-list address after the room address. */
  function PlaylistScoresPath(playlistId: nat): (path: string)
    ensures |path| >= 1 && path[0] == '/'
  {
    PlaylistSegment + DecimalDigits(playlistId) + ScoresSegment
  }

  /** The score-list address of a playlist: the room address extended by the playlist path. */
  function ScoresKey(roomId: nat, playlistId: nat): (key: string)
    ensures RoomKey(roomId) <= key
    ensures key[|RoomKey(roomId)|..] == PlaylistSegment + DecimalDigits(playlistId) + ScoresSegment
  {
    RoomKey(roomId) + PlaylistScoresPath(playlistId)
  }

  /**
   Digits followed by a slash: the digits end where the slash is, so equal
   texts of this shape have equal digit parts and equal rests.
   */
  lemma {:induction false} DigitsBeforeSlash(a: string, x: string, b: string, y: string)
    requires AllDigits(a) && AllDigits(b)
    requires |x| >= 1 && x[0] == '/' && |y| >= 1 && y[0] == '/'
    requires a + x == b + y
    ensures a == b && x == y
  {
    var s := a + x;
    NumberFormat.LeadingDigitsOfPrefix(a, x);
    NumberFormat.LeadingDigitsOfPrefix(b, y);
    assert a == s[..|a|] == b;
    assert x == s[|a|..] == y;
  }

  /** Different rooms have different addresses. */
  lemma RoomKeyInjective(r1: nat, r2: nat)
    requires RoomKey(r1) == RoomKey(r2)
    ensures r1 == r2
  {
    var k := RoomKey(r1);
    assert DecimalDigits(r1) == k[|RoomsBase|..] == DecimalDigits(r2);
    DecimalDigitsInjective(r1, r2);
  }

  /** A common prefix and suffix can be cancelled. */
  lemma CancelAffixes(p: string, a: string, b: string, q: string)
    requires p + a + q == p + b + q
    ensures a == b
  {
    var s := p + a + q;
    assert |a| == |b|;
    assert a == s[|p|..|p| + |a|] == b;
  }

  /** The playlist path determines the playlist. */
  lemma PlaylistScoresPathInjective(p1: nat, p2: nat)
    requires PlaylistScoresPath(p1) == PlaylistScoresPath(p2)
    ensures p1 == p2
  {
    CancelAffixes(PlaylistSegment, DecimalDigits(p1), DecimalDigits(p2), ScoresSegment);
    DecimalDigitsInjective(p1, p2);
  }

  /** A common prefix can be cancelled. */
  lemma CancelPrefix(p: string, a: string, b: string)
    requires p + a == p + b
    ensures a == b
  {
    var s := p + a;
    assert a == s[|p|..] == b;
  }

  /** Behind the common base, a score-list address is the room id followed by the playlist path. */
  lemma ScoresKeyAfterBase(r: nat, p: nat)
    ensures ScoresKey(r, p) == RoomsBase + (DecimalDigits(r) + PlaylistScoresPath(p))
  {
    Regroup(RoomsBase, DecimalDigits(r), PlaylistScoresPath(p));
  }

  lemma Regroup(a: string, b: string, c: string)
    ensures a + b + c == a + (b + c)
  {
  }

  /** The score-list address determines the room and the playlist. */
  lemma ScoresKeyInjective(r1: nat, p1: nat, r2: nat, p2: nat)
    requires ScoresKey(r1, p1) == ScoresKey(r2, p2)
    ensures r1 == r2 && p1 == p2
  {
    var d1, d2 := DecimalDigits(r1), DecimalDigits(r2);
    var t1, t2 := PlaylistScoresPath(p1), PlaylistScoresPath(p2);
    ScoresKeyAfterBase(r1, p1);
    ScoresKeyAfterBase(r2, p2);
    CancelPrefix(RoomsBase, d1 + t1, d2 + t2);
    DigitsBeforeSlash(d1, t1, d2, t2);
    DecimalDigitsInjective(r1, r2);
    PlaylistScoresPathInjective(p1, p2);
  }

  /** A score-list address is never a room address, so the two kinds of resource never share a cache entry. */
  lemma RoomAndScoresKeysDiffer(r: nat, r2: nat, p: nat)
    ensures RoomKey(r) != ScoresKey(r2, p)
  {
    var k := ScoresKey(r2, p);
    var i := |RoomKey(r2)|;
    assert k[i] == '/';
  }
}
