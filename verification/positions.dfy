/**
 * The live-position lambda (lib/lambdas/getDataOpenF1.ts): reduce the raw
 * position feed to the latest entry per position, sorted, at most twenty of
 * them, and join each with its driver.
 */
module Positions {
  import opened Wrappers
  import opened Dates

  /** The number of entries getTop20 keeps at most. */
  const TopCount: nat := 20

  /** One entry of the position feed (iPosition); `date` is the feed's date string. */
  datatype Position = Position(session_key: int, meeting_key: int, driver_number: int, date: DateText, position: int)

  /** The descriptive fields of a driver (iDriver without its three numeric keys). */
  datatype Profile = Profile(
    broadcast_name: string,
    country_code: string,
    first_name: string,
    full_name: string,
    headshot_url: string,
    last_name: string,
    team_colour: string,
    team_name: string,
    name_acronym: string)

  /** One entry of the driver feed (iDriver). */
  datatype Driver = Driver(session_key: int, meeting_key: int, driver_number: int, profile: Profile)

  /**
   * A position spread with its driver (MergedData). The driver's keys take
   * the place of the position's; `profile` is None when no driver matched,
   * in which case the object holds only the position's own fields.
   */
  datatype Merged = Merged(
    session_key: int,
    meeting_key: int,
    driver_number: int,
    date: DateText,
    position: int,
    profile: Option<Profile>)

  // ---------------------------------------------------------------------------
  // getTop20

  /** The comparison `new Date(kept.date) < new Date(entry.date)` that lets an entry replace the kept one. */
  predicate Supersedes(kept: Position, entry: Position) {
    Before(TimeValue(kept.date), TimeValue(entry.date))
  }

  /** The index of the entry holding position `p`, or |s| when there is none. */
  function IndexOfPosition(s: seq<Position>, p: int): (i: nat)
    ensures i <= |s|
    ensures i < |s| ==> s[i].position == p
    ensures forall j :: 0 <= j < i ==> s[j].position != p
  {
    if |s| == 0 then 0
    else if s[0].position == p then 0
    else 1 + IndexOfPosition(s[1..], p)
  }

  /**
   * One step of the forEach: `positionMap.set(position, entry)` when the
   * position is new or the entry is later. A Map keeps the order in which
   * keys were first inserted, and replacing a value keeps its place.
   */
  function Upsert(kept: seq<Position>, entry: Position): (r: seq<Position>)
    ensures |kept| <= |r| <= |kept| + 1
    ensures forall y :: y in r ==> y in kept || y == entry
  {
    var i := IndexOfPosition(kept, entry.position);
    if i == |kept| then kept + [entry]
    else if Supersedes(kept[i], entry) then kept[i := entry]
    else kept
  }

  /** `positionMap.values()` after the whole feed has been folded in. */
  function LatestPerPosition(data: seq<Position>): (r: seq<Position>)
    ensures |r| <= |data|
    ensures forall x :: x in r ==> x in data
    decreases |data|
  {
    if |data| == 0 then []
    else
      var prefix := data[..|data| - 1];
      assert data == prefix + [data[|data| - 1]];
      Upsert(LatestPerPosition(prefix), data[|data| - 1])
  }

  /** Inserts `x` before the first entry of higher or equal position (the sort is stable). */
  function Insert(x: Position, s: seq<Position>): (r: seq<Position>)
    ensures |r| == |s| + 1
    ensures multiset(r) == multiset(s) + multiset{x}
    ensures forall y :: y in r ==> y == x || y in s
  {
    if |s| == 0 then [x]
    else if x.position <= s[0].position then [x] + s
    else
      assert s == [s[0]] + s[1..];
      [s[0]] + Insert(x, s[1..])
  }

  /** `sort((a, b) => a.position - b.position)`, as a stable insertion sort. */
  function SortByPosition(s: seq<Position>): (r: seq<Position>)
    ensures |r| == |s|
    ensures multiset(r) == multiset(s)
  {
    if |s| == 0 then []
    else
      assert s == [s[0]] + s[1..];
      Insert(s[0], SortByPosition(s[1..]))
  }

  /** `.slice(0, 20)`. */
  function Slice20(s: seq<Position>): (r: seq<Position>) {
    if |s| <= TopCount then s else s[..TopCount]
  }

  /**
   * getTop20: the latest entry per position, sorted by position, the first
   * twenty. The result has one entry per position of the feed up to twenty,
   * strictly ascending, each from the feed, and a position left out lies
   * above every position reported.
   */
  function GetTop20(data: seq<Position>): (r: seq<Position>)
    ensures |r| == (if |PositionsOf(data)| <= TopCount then |PositionsOf(data)| else TopCount)
    ensures StrictlyAscending(r)
    ensures forall x :: x in r ==> x in data
    ensures forall p :: p in PositionsOf(data) ==>
      p in PositionsOf(r) || forall k :: 0 <= k < |r| ==> r[k].position < p
  {
    var r := Slice20(SortByPosition(LatestPerPosition(data)));
    SliceLength(data, r);
    SliceAscending(data, r);
    forall x | x in r ensures x in data {
      SliceFromKept(data, r, x);
      LatestPerPositionShape(data);
    }
    forall p | p in PositionsOf(data) && p !in PositionsOf(r)
      ensures forall k :: 0 <= k < |r| ==> r[k].position < p
    {
      SliceCutoff(data, r, p);
    }
    r
  }

  /** The position values occurring in `s`. */
  ghost function PositionsOf(s: seq<Position>): set<int> {
    set i | 0 <= i < |s| :: s[i].position
  }

  /** No position value occurs twice. */
  ghost predicate DistinctPositions(s: seq<Position>) {
    forall i, j :: 0 <= i < j < |s| ==> s[i].position != s[j].position
  }

  ghost predicate StrictlyAscending(s: seq<Position>) {
    forall i, j :: 0 <= i < j < |s| ==> s[i].position < s[j].position
  }

  /** Every date string of the feed parses to a valid time value. */
  ghost predicate ValidDates(data: seq<Position>) {
    forall i :: 0 <= i < |data| ==> TimeValue(data[i].date).Some?
  }

  /**
   * Entry `i` is the one the reduction should keep for its position: its date
   * is the latest among entries of that position, and every earlier entry of
   * that position is strictly older.
   */
  ghost predicate LatestAt(data: seq<Position>, i: int) {
    && 0 <= i < |data|
    && TimeValue(data[i].date).Some?
    && forall j :: 0 <= j < |data| && data[j].position == data[i].position ==>
         && TimeValue(data[j].date).Some?
         && TimeValue(data[j].date).value <= TimeValue(data[i].date).value
         && (j < i ==> TimeValue(data[j].date).value < TimeValue(data[i].date).value)
  }

  /** The reduction keeps one entry per position of the feed, each taken from the feed. */
  lemma {:induction false} LatestPerPositionShape(data: seq<Position>)
    ensures var kept := LatestPerPosition(data);
      && DistinctPositions(kept)
      && PositionsOf(kept) == PositionsOf(data)
      && forall x :: x in kept ==> x in data
  {
    if |data| > 0 {
      var prefix := data[..|data| - 1];
      var e := data[|data| - 1];
      var kept := LatestPerPosition(prefix);
      LatestPerPositionShape(prefix);
      assert data == prefix + [e];
      var i := IndexOfPosition(kept, e.position);
      var next := Upsert(kept, e);
      assert PositionsOf(data) == PositionsOf(prefix) + {e.position} by {
        forall p | p in PositionsOf(data) ensures p in PositionsOf(prefix) + {e.position} {
          var k :| 0 <= k < |data| && data[k].position == p;
          if k < |prefix| { assert prefix[k] == data[k]; }
        }
        forall p | p in PositionsOf(prefix) ensures p in PositionsOf(data) {
          var k :| 0 <= k < |prefix| && prefix[k].position == p;
          assert data[k] == prefix[k];
        }
        assert data[|data| - 1].position == e.position;
      }
      if i == |kept| {
        assert next == kept + [e];
        assert next[|kept|] == e;
        assert PositionsOf(next) == PositionsOf(kept) + {e.position} by {
          forall p | p in PositionsOf(next) ensures p in PositionsOf(kept) + {e.position} {
            var k :| 0 <= k < |next| && next[k].position == p;
            if k < |kept| { assert next[k] == kept[k]; }
          }
          forall p | p in PositionsOf(kept) ensures p in PositionsOf(next) {
            var k :| 0 <= k < |kept| && kept[k].position == p;
            assert next[k] == kept[k];
          }
        }
      } else if Supersedes(kept[i], e) {
        assert next == kept[i := e];
        assert PositionsOf(next) == PositionsOf(kept) by {
          forall p | p in PositionsOf(next) ensures p in PositionsOf(kept) {
            var k :| 0 <= k < |next| && next[k].position == p;
            assert next[k].position == kept[k].position;
          }
          forall p | p in PositionsOf(kept) ensures p in PositionsOf(next) {
            var k :| 0 <= k < |kept| && kept[k].position == p;
            assert next[k].position == kept[k].position;
          }
        }
        forall x | x in next ensures x in data {
          var k :| 0 <= k < |next| && next[k] == x;
          if k != i { assert x == kept[k]; assert x in prefix; }
        }
      }
    }
  }

  /** `x` is the entry the reduction should keep for its position. */
  ghost predicate HasLatest(data: seq<Position>, x: Position) {
    exists i :: LatestAt(data, i) && data[i] == x
  }

  lemma ValidPrefix(data: seq<Position>, n: nat)
    requires n <= |data| && ValidDates(data)
    ensures ValidDates(data[..n])
  {
    forall i | 0 <= i < n ensures TimeValue(data[..n][i].date).Some? { assert data[..n][i] == data[i]; }
  }

  /** An entry of another position does not disturb the latest entry kept so far. */
  lemma OtherStaysLatest(data: seq<Position>, x: Position)
    requires |data| > 0 && ValidDates(data)
    requires HasLatest(data[..|data| - 1], x)
    requires x.position != data[|data| - 1].position
    ensures HasLatest(data, x)
  {
    var n := |data| - 1;
    var prefix := data[..n];
    var i :| LatestAt(prefix, i) && prefix[i] == x;
    assert data[i] == prefix[i];
    forall j | 0 <= j < |data| && data[j].position == data[i].position
      ensures TimeValue(data[j].date).Some?
      ensures TimeValue(data[j].date).value <= TimeValue(data[i].date).value
      ensures j < i ==> TimeValue(data[j].date).value < TimeValue(data[i].date).value
    {
      assert j < n;
      assert data[j] == prefix[j];
    }
    assert LatestAt(data, i);
  }

  /** The first entry of a position is its latest so far. */
  lemma NewPositionLatest(data: seq<Position>)
    requires |data| > 0 && ValidDates(data)
    requires forall j :: 0 <= j < |data| - 1 ==> data[j].position != data[|data| - 1].position
    ensures HasLatest(data, data[|data| - 1])
  {
    assert LatestAt(data, |data| - 1);
  }

  /** A strictly later entry becomes the latest of its position. */
  lemma LaterReplaces(data: seq<Position>, x: Position)
    requires |data| > 0 && ValidDates(data)
    requires HasLatest(data[..|data| - 1], x)
    requires x.position == data[|data| - 1].position && Supersedes(x, data[|data| - 1])
    ensures HasLatest(data, data[|data| - 1])
  {
    var n := |data| - 1;
    var prefix := data[..n];
    var i :| LatestAt(prefix, i) && prefix[i] == x;
    var te := TimeValue(data[n].date).value;
    forall j | 0 <= j < |data| && data[j].position == data[n].position
      ensures TimeValue(data[j].date).Some?
      ensures TimeValue(data[j].date).value <= te
      ensures j < n ==> TimeValue(data[j].date).value < te
    {
      if j < n { assert data[j] == prefix[j]; }
    }
    assert LatestAt(data, n);
  }

  /** An entry no later than the kept one leaves it the latest (the earlier one wins ties). */
  lemma EarlierStays(data: seq<Position>, x: Position)
    requires |data| > 0 && ValidDates(data)
    requires HasLatest(data[..|data| - 1], x)
    requires x.position == data[|data| - 1].position && !Supersedes(x, data[|data| - 1])
    ensures HasLatest(data, x)
  {
    var n := |data| - 1;
    var prefix := data[..n];
    var i :| LatestAt(prefix, i) && prefix[i] == x;
    assert data[i] == prefix[i];
    var t0 := TimeValue(x.date).value;
    forall j | 0 <= j < |data| && data[j].position == data[i].position
      ensures TimeValue(data[j].date).Some?
      ensures TimeValue(data[j].date).value <= t0
      ensures j < i ==> TimeValue(data[j].date).value < t0
    {
      if j < n { assert data[j] == prefix[j]; }
    }
    assert LatestAt(data, i);
  }

  /** With valid dates, the reduction keeps for each position the first of its latest entries. */
  lemma {:induction false} LatestPerPositionKeepsLatest(data: seq<Position>)
    requires ValidDates(data)
    ensures var kept := LatestPerPosition(data);
      forall k :: 0 <= k < |kept| ==> HasLatest(data, kept[k])
  {
    if |data| > 0 {
      var n := |data| - 1;
      var prefix := data[..n];
      var e := data[n];
      var kept := LatestPerPosition(prefix);
      ValidPrefix(data, n);
      LatestPerPositionKeepsLatest(prefix);
      LatestPerPositionShape(prefix);
      var idx := IndexOfPosition(kept, e.position);
      var next := Upsert(kept, e);
      assert next == LatestPerPosition(data);
      forall k | 0 <= k < |next| ensures HasLatest(data, next[k]) {
        if k < |kept| && kept[k].position != e.position {
          assert next[k] == kept[k];
          OtherStaysLatest(data, kept[k]);
        } else if idx == |kept| {
          assert next[k] == e;
          forall j | 0 <= j < n ensures data[j].position != e.position {
            assert prefix[j] == data[j];
            assert prefix[j].position in PositionsOf(kept);
          }
          NewPositionLatest(data);
        } else {
          assert k == idx;
          if Supersedes(kept[idx], e) {
            assert next[k] == e;
            LaterReplaces(data, kept[idx]);
          } else {
            assert next[k] == kept[idx];
            EarlierStays(data, kept[idx]);
          }
        }
      }
    }
  }

  /** An entry whose position is new and whose date is unparsable is never replaced: no date compares later than NaN. */
  lemma {:induction false} InvalidFirstDateKept(data: seq<Position>, i: nat)
    requires i < |data|
    requires TimeValue(data[i].date).None?
    requires forall j :: 0 <= j < i ==> data[j].position != data[i].position
    ensures data[i] in LatestPerPosition(data)
    ensures var kept := LatestPerPosition(data);
      IndexOfPosition(kept, data[i].position) < |kept| && kept[IndexOfPosition(kept, data[i].position)] == data[i]
  {
    var n := |data| - 1;
    var prefix := data[..n];
    var e := data[n];
    var kept := LatestPerPosition(prefix);
    var p := data[i].position;
    if i == n {
      LatestPerPositionShape(prefix);
      forall k | 0 <= k < |kept| ensures kept[k].position != p {
        assert kept[k].position in PositionsOf(prefix);
        var j :| 0 <= j < |prefix| && prefix[j].position == kept[k].position;
        assert prefix[j] == data[j];
      }
      assert IndexOfPosition(kept, p) == |kept|;
      assert LatestPerPosition(data) == kept + [e];
      assert e == data[i];
      assert IndexOfPosition(kept + [e], p) == |kept| by {
        var m := IndexOfPosition(kept + [e], p);
        assert (kept + [e])[|kept|] == e;
        assert forall k :: 0 <= k < |kept| ==> (kept + [e])[k] == kept[k];
      }
    } else {
      assert prefix[i] == data[i];
      forall j | 0 <= j < i ensures prefix[j].position != prefix[i].position { assert prefix[j] == data[j]; }
      InvalidFirstDateKept(prefix, i);
      var idx := IndexOfPosition(kept, p);
      var next := Upsert(kept, e);
      var ie := IndexOfPosition(kept, e.position);
      if e.position == p {
        assert ie == idx;
        assert !Supersedes(kept[idx], e);
        assert next == kept;
      } else if ie == |kept| {
        assert next == kept + [e];
        assert IndexOfPosition(next, p) == idx by {
          var m := IndexOfPosition(next, p);
          assert forall k :: 0 <= k < |kept| ==> next[k] == kept[k];
          assert next[idx] == kept[idx];
        }
      } else {
        assert ie != idx;
        assert IndexOfPosition(next, p) == idx by {
          var m := IndexOfPosition(next, p);
          assert forall k :: 0 <= k < |kept| ==> next[k].position == kept[k].position;
          assert next[idx] == kept[idx];
        }
      }
    }
  }

  lemma {:induction false} InsertAscending(x: Position, s: seq<Position>)
    requires StrictlyAscending(s)
    requires forall k :: 0 <= k < |s| ==> s[k].position != x.position
    ensures StrictlyAscending(Insert(x, s))
  {
    if |s| > 0 && x.position > s[0].position {
      var tail := Insert(x, s[1..]);
      InsertAscending(x, s[1..]);
      var r := [s[0]] + tail;
      forall k | 0 <= k < |tail| ensures s[0].position < tail[k].position {
        assert tail[k] in tail;
        if tail[k] != x {
          var m :| 0 <= m < |s[1..]| && s[1..][m] == tail[k];
          assert s[m + 1] == tail[k];
        }
      }
      forall i, j | 0 <= i < j < |r| ensures r[i].position < r[j].position {
        if i > 0 { assert r[i] == tail[i - 1] && r[j] == tail[j - 1]; }
        else { assert r[j] == tail[j - 1]; }
      }
    }
  }

  /** Sorting entries of distinct positions orders them strictly by position. */
  lemma {:induction false} SortAscending(s: seq<Position>)
    requires DistinctPositions(s)
    ensures StrictlyAscending(SortByPosition(s))
  {
    if |s| > 0 {
      var rest := SortByPosition(s[1..]);
      assert DistinctPositions(s[1..]) by {
        forall i, j | 0 <= i < j < |s[1..]| ensures s[1..][i].position != s[1..][j].position {
          assert s[1..][i] == s[i + 1] && s[1..][j] == s[j + 1];
        }
      }
      SortAscending(s[1..]);
      forall k | 0 <= k < |rest| ensures rest[k].position != s[0].position {
        assert rest[k] in multiset(s[1..]);
        var m :| 0 <= m < |s[1..]| && s[1..][m] == rest[k];
        assert s[m + 1] == rest[k];
      }
      InsertAscending(s[0], rest);
    }
  }

  /** Sequences holding the same entries hold the same positions. */
  lemma SamePositions(a: seq<Position>, b: seq<Position>)
    requires multiset(a) == multiset(b)
    ensures PositionsOf(a) == PositionsOf(b)
  {
    forall p | p in PositionsOf(a) ensures p in PositionsOf(b) {
      var k :| 0 <= k < |a| && a[k].position == p;
      assert a[k] in multiset(b);
      var m :| 0 <= m < |b| && b[m] == a[k];
    }
    forall p | p in PositionsOf(b) ensures p in PositionsOf(a) {
      var k :| 0 <= k < |b| && b[k].position == p;
      assert b[k] in multiset(a);
      var m :| 0 <= m < |a| && a[m] == b[k];
    }
  }

  /** Entries of distinct positions are exactly as many as their positions. */
  lemma {:induction false} DistinctCount(s: seq<Position>)
    requires DistinctPositions(s)
    ensures |PositionsOf(s)| == |s|
  {
    if |s| > 0 {
      var n := |s| - 1;
      var prefix := s[..n];
      assert DistinctPositions(prefix) by {
        forall i, j | 0 <= i < j < n ensures prefix[i].position != prefix[j].position {
          assert prefix[i] == s[i] && prefix[j] == s[j];
        }
      }
      DistinctCount(prefix);
      assert PositionsOf(s) == PositionsOf(prefix) + {s[n].position} by {
        forall p | p in PositionsOf(s) ensures p in PositionsOf(prefix) + {s[n].position} {
          var k :| 0 <= k < |s| && s[k].position == p;
          if k < n { assert prefix[k] == s[k]; }
        }
        forall p | p in PositionsOf(prefix) ensures p in PositionsOf(s) {
          var k :| 0 <= k < n && prefix[k].position == p;
          assert s[k] == prefix[k];
        }
      }
      forall k | 0 <= k < n ensures prefix[k].position != s[n].position {
        assert prefix[k] == s[k];
      }
      assert s[n].position !in PositionsOf(prefix);
    }
  }

  /** Every entry of the slice is one the reduction kept. */
  lemma SliceFromKept(data: seq<Position>, r: seq<Position>, x: Position)
    requires r == Slice20(SortByPosition(LatestPerPosition(data)))
    requires x in r
    ensures x in LatestPerPosition(data)
  {
    var sorted := SortByPosition(LatestPerPosition(data));
    assert x in sorted;
    assert x in multiset(sorted);
  }

  /** The slice has one entry per position of the feed, up to twenty. */
  lemma SliceLength(data: seq<Position>, r: seq<Position>)
    requires r == Slice20(SortByPosition(LatestPerPosition(data)))
    ensures |r| == (if |PositionsOf(data)| <= TopCount then |PositionsOf(data)| else TopCount)
  {
    var kept := LatestPerPosition(data);
    LatestPerPositionShape(data);
    DistinctCount(kept);
  }

  /** The slice is strictly ascending by position. */
  lemma SliceAscending(data: seq<Position>, r: seq<Position>)
    requires r == Slice20(SortByPosition(LatestPerPosition(data)))
    ensures StrictlyAscending(r)
  {
    var kept := LatestPerPosition(data);
    var sorted := SortByPosition(kept);
    LatestPerPositionShape(data);
    SortAscending(kept);
    forall i, j | 0 <= i < j < |r| ensures r[i].position < r[j].position {
      assert r[i] == sorted[i] && r[j] == sorted[j];
    }
  }

  /** The sorted reduction is strictly ascending and holds exactly the feed's positions. */
  lemma SortedReduction(data: seq<Position>)
    ensures StrictlyAscending(SortByPosition(LatestPerPosition(data)))
    ensures PositionsOf(SortByPosition(LatestPerPosition(data))) == PositionsOf(data)
  {
    var kept := LatestPerPosition(data);
    LatestPerPositionShape(data);
    SortAscending(kept);
    SamePositions(SortByPosition(kept), kept);
  }

  /** In a strictly ascending list, a position missing from the slice lies above every entry of the slice. */
  lemma BeyondSlice(sorted: seq<Position>, p: int)
    requires StrictlyAscending(sorted)
    requires p in PositionsOf(sorted) && p !in PositionsOf(Slice20(sorted))
    ensures forall k :: 0 <= k < |Slice20(sorted)| ==> Slice20(sorted)[k].position < p
  {
    var r := Slice20(sorted);
    var m :| 0 <= m < |sorted| && sorted[m].position == p;
    assert forall k :: 0 <= k < |r| ==> r[k] == sorted[k];
    assert m >= |r|;
    forall k | 0 <= k < |r| ensures r[k].position < p {
      assert r[k] == sorted[k];
    }
  }

  /** A position of the feed missing from the slice lies above every position in it. */
  lemma SliceCutoff(data: seq<Position>, r: seq<Position>, p: int)
    requires r == Slice20(SortByPosition(LatestPerPosition(data)))
    requires p in PositionsOf(data) && p !in PositionsOf(r)
    ensures forall k :: 0 <= k < |r| ==> r[k].position < p
  {
    SortedReduction(data);
    BeyondSlice(SortByPosition(LatestPerPosition(data)), p);
  }

  /** When the feed has at most twenty positions, every one of them is reported. */
  lemma GetTop20Complete(data: seq<Position>)
    requires |PositionsOf(data)| <= TopCount
    ensures PositionsOf(GetTop20(data)) == PositionsOf(data)
  {
    var kept := LatestPerPosition(data);
    var sorted := SortByPosition(kept);
    LatestPerPositionShape(data);
    DistinctCount(kept);
    SamePositions(sorted, kept);
    assert GetTop20(data) == sorted;
  }

  /** With valid dates, every reported entry is the first of the latest entries of its position. */
  lemma GetTop20KeepsLatest(data: seq<Position>)
    requires ValidDates(data)
    ensures forall x :: x in GetTop20(data) ==> exists i :: LatestAt(data, i) && data[i] == x
  {
    var kept := LatestPerPosition(data);
    LatestPerPositionKeepsLatest(data);
    forall x | x in GetTop20(data) ensures exists i :: LatestAt(data, i) && data[i] == x {
      SliceFromKept(data, GetTop20(data), x);
      var k :| 0 <= k < |kept| && kept[k] == x;
      assert HasLatest(data, kept[k]);
    }
  }

  // ---------------------------------------------------------------------------
  // mergeDriverData

  /** Driver `j` is the last one in the list carrying its driver number. */
  ghost predicate LastOfNumber(drivers: seq<Driver>, j: int) {
    && 0 <= j < |drivers|
    && forall k :: j < k < |drivers| ==> drivers[k].driver_number != drivers[j].driver_number
  }

  /** The driver numbers occurring in `drivers`. */
  ghost function NumbersOf(drivers: seq<Driver>): set<int> {
    set j | 0 <= j < |drivers| :: drivers[j].driver_number
  }

  lemma NumbersOfSnoc(drivers: seq<Driver>)
    requires |drivers| > 0
    ensures NumbersOf(drivers) == NumbersOf(drivers[..|drivers| - 1]) + {drivers[|drivers| - 1].driver_number}
  {
    var n := |drivers| - 1;
    var prefix := drivers[..n];
    forall x | x in NumbersOf(drivers) ensures x in NumbersOf(prefix) + {drivers[n].driver_number} {
      var j :| 0 <= j < |drivers| && drivers[j].driver_number == x;
      if j < n { assert prefix[j] == drivers[j]; }
    }
    forall x | x in NumbersOf(prefix) ensures x in NumbersOf(drivers) {
      var j :| 0 <= j < n && prefix[j].driver_number == x;
      assert drivers[j] == prefix[j];
    }
  }

  /** `driverMap` after the forEach: it holds exactly the driver numbers of the list. */
  function DriverMap(drivers: seq<Driver>): (m: map<int, Driver>)
    ensures m.Keys == NumbersOf(drivers)
    decreases |drivers|
  {
    if |drivers| == 0 then map[]
    else
      NumbersOfSnoc(drivers);
      DriverMap(drivers[..|drivers| - 1])[drivers[|drivers| - 1].driver_number := drivers[|drivers| - 1]]
  }

  /** Each `set` replaces the driver kept for its number, so the last driver with a number wins. */
  lemma {:induction false} DriverMapLastWins(drivers: seq<Driver>)
    ensures forall j :: LastOfNumber(drivers, j) ==>
      drivers[j].driver_number in DriverMap(drivers) && DriverMap(drivers)[drivers[j].driver_number] == drivers[j]
  {
    if |drivers| > 0 {
      var n := |drivers| - 1;
      var prefix := drivers[..n];
      DriverMapLastWins(prefix);
      var m := DriverMap(drivers);
      var last := drivers[n];
      assert m == DriverMap(prefix)[last.driver_number := last];
      forall j | LastOfNumber(drivers, j)
        ensures drivers[j].driver_number in m && m[drivers[j].driver_number] == drivers[j]
      {
        if j < n {
          assert last.driver_number != drivers[j].driver_number;
          assert LastOfNumber(prefix, j) by {
            forall k | j < k < n ensures prefix[k].driver_number != prefix[j].driver_number {
              assert prefix[k] == drivers[k] && prefix[j] == drivers[j];
            }
          }
          assert prefix[j] == drivers[j];
        }
      }
    }
  }

  /** The position entry with nothing spread over it. */
  function FromPosition(p: Position): Merged {
    Merged(p.session_key, p.meeting_key, p.driver_number, p.date, p.position, None)
  }

  /** `{...position, ...(driverData || {})}`: the driver's fields override the position's. */
  function MergeOne(p: Position, driver: Option<Driver>): (m: Merged) {
    match driver
    case None => FromPosition(p)
    case Some(d) => Merged(d.session_key, d.meeting_key, d.driver_number, p.date, p.position, Some(d.profile))
  }

  /**
   * mergeDriverData: one merged entry per position, in the same order. Each
   * takes the last driver with its driver number; with none, it is the
   * position entry unchanged.
   */
  function MergeDriverData(positions: seq<Position>, drivers: seq<Driver>): (r: seq<Merged>)
    ensures |r| == |positions|
    ensures forall i :: 0 <= i < |r| ==> r[i].date == positions[i].date && r[i].position == positions[i].position
    ensures forall i :: 0 <= i < |r| ==>
      ((forall j :: 0 <= j < |drivers| ==> drivers[j].driver_number != positions[i].driver_number)
       <==> r[i] == FromPosition(positions[i]))
    ensures forall i, j :: 0 <= i < |r| && LastOfNumber(drivers, j)
                           && drivers[j].driver_number == positions[i].driver_number ==>
      && r[i].session_key == drivers[j].session_key
      && r[i].meeting_key == drivers[j].meeting_key
      && r[i].driver_number == positions[i].driver_number
      && r[i].profile == Some(drivers[j].profile)
  {
    DriverMapLastWins(drivers);
    var m := DriverMap(drivers);
    seq(|positions|, i requires 0 <= i < |positions| =>
      MergeOne(positions[i], if positions[i].driver_number in m then Some(m[positions[i].driver_number]) else None))
  }

  /** Some driver is the last of every number that occurs, so a match is never lost. */
  lemma {:induction false} LastOfNumberExists(drivers: seq<Driver>, n: int, j: int)
    requires 0 <= j < |drivers| && drivers[j].driver_number == n
    ensures exists l :: LastOfNumber(drivers, l) && drivers[l].driver_number == n
    decreases |drivers| - j
  {
    if !LastOfNumber(drivers, j) {
      var k :| j < k < |drivers| && drivers[k].driver_number == drivers[j].driver_number;
      LastOfNumberExists(drivers, n, k);
    }
  }

  /** A position with any driver of its number is merged with a driver, never left bare. */
  lemma MergeFindsDriver(positions: seq<Position>, drivers: seq<Driver>, i: int, j: int)
    requires 0 <= i < |positions| && 0 <= j < |drivers|
    requires drivers[j].driver_number == positions[i].driver_number
    ensures MergeDriverData(positions, drivers)[i].profile.Some?
  {
    LastOfNumberExists(drivers, positions[i].driver_number, j);
  }
}
