/** `MapShards`: which shard each point of a write request goes to. Times are nanoseconds since the
    Unix epoch; the meta client's answers and the clock are parameters. */
module CoordinatorMapShards {
  import opened Arithmetic
  import opened Common

  datatype Point = Point(time: int, hash: nat, payload: int)

  datatype Shard = Shard(id: nat, info: int)

  type Group = seq<Shard>

  datatype Policy = Policy(duration: int, shardGroupDuration: int)

  datatype Lookup = LookupError | NoPolicy | Found(policy: Policy)

  /** From the zero time of Go's clock to the Unix epoch. */
  const ZERO_TO_UNIX := 62_135_596_800 * 1_000_000_000
  const MIN_NANO_TIME := -TWO_63

  /** `Time.Truncate`. */
  function Truncate(t: int, d: int): int {
    if d <= 0 then t else t - (t + ZERO_TO_UNIX) % d
  }

  /** The latest multiple of `d` since the zero time that is not after `t`. */
  lemma TruncateIsFloor(t: int, d: int)
    requires 0 < d
    ensures Truncate(t, d) <= t < Truncate(t, d) + d && (Truncate(t, d) + ZERO_TO_UNIX) % d == 0
  {
    var x := t + ZERO_TO_UNIX;
    DivMod(x - x % d, d, x / d, 0);
  }

  /** Points older than this are not meant to be written. */
  function Cutoff(policy: Policy, now: int): int {
    if policy.duration > 0 then now - policy.duration else MIN_NANO_TIME
  }

  // ---------------------------------------------------------------------------------------
  // What the mapping is to be
  // ---------------------------------------------------------------------------------------

  /** `create` is the shard group the meta client finds or makes for a time, if it can. */
  datatype Request = Request(points: seq<Point>, cutoff: int, width: int, create: int -> Option<Group>)

  function RangeOf(r: Request, p: Point): int {
    Truncate(p.time, r.width)
  }

  /** The ranges of those of the first `n` points that are not too old. */
  function Ranges(r: Request, n: nat): set<int>
    requires n <= |r.points|
    decreases n
  {
    if n == 0 then {}
    else
      Ranges(r, n - 1) + (if r.cutoff <= r.points[n - 1].time then {RangeOf(r, r.points[n - 1])} else {})
  }

  lemma {:induction false} RangesExactly(r: Request, n: nat, t: int)
    requires n <= |r.points|
    ensures t in Ranges(r, n) <==>
            exists i :: 0 <= i < n && r.cutoff <= r.points[i].time && RangeOf(r, r.points[i]) == t
    decreases n
  {
    if n > 0 {
      RangesExactly(r, n - 1, t);
    }
  }

  /** Some point that is not too old needs the range starting at `t`. */
  predicate Needed(r: Request, t: int) {
    t in Ranges(r, |r.points|)
  }

  lemma NeededExactly(r: Request, t: int)
    ensures Needed(r, t) <==> exists p :: p in r.points && r.cutoff <= p.time && RangeOf(r, p) == t
  {
    RangesExactly(r, |r.points|, t);
    if exists p :: p in r.points && r.cutoff <= p.time && RangeOf(r, p) == t {
      var p :| p in r.points && r.cutoff <= p.time && RangeOf(r, p) == t;
      var i :| 0 <= i < |r.points| && r.points[i] == p;
    }
  }

  /** No group lacks shards. */
  ghost predicate Populated(create: int -> Option<Group>) {
    forall t :: create(t).Some? ==> create(t).value != []
  }

  /** Every needed group can be had. */
  predicate Creatable(r: Request) {
    forall p :: p in r.points && r.cutoff <= p.time ==> r.create(RangeOf(r, p)).Some?
  }

  lemma CreatableExactly(r: Request)
    ensures Creatable(r) <==> forall t :: t in Ranges(r, |r.points|) ==> r.create(t).Some?
  {
    if Creatable(r) {
      forall t | t in Ranges(r, |r.points|)
        ensures r.create(t).Some?
      {
        NeededExactly(r, t);
      }
    }
    if forall t :: t in Ranges(r, |r.points|) ==> r.create(t).Some? {
      forall p | p in r.points && r.cutoff <= p.time
        ensures r.create(RangeOf(r, p)).Some?
      {
        NeededExactly(r, RangeOf(r, p));
        assert Needed(r, RangeOf(r, p));
      }
    }
  }

  /** The shard a point belongs to; none for a point that is dropped. */
  function Home(r: Request, p: Point): Option<Shard> {
    if Needed(r, RangeOf(r, p)) && r.create(RangeOf(r, p)).Some? && r.create(RangeOf(r, p)).value != [] then
      var group := r.create(RangeOf(r, p)).value;
      Some(group[p.hash % |group|])
    else
      None
  }

  function HomeId(r: Request): Homing {
    p => if Home(r, p).Some? then Some(Home(r, p).value.id) else None
  }

  // ---------------------------------------------------------------------------------------
  // Sorting points into lists, wherever they belong
  // ---------------------------------------------------------------------------------------

  /** The shard ID a point belongs to, if any. */
  type Homing = Point -> Option<nat>

  /** The points for one shard among the first `n`, in request order. */
  function Listed(points: seq<Point>, home: Homing, n: nat, id: nat): seq<Point>
    requires n <= |points|
    decreases n
  {
    if n == 0 then []
    else
      Listed(points, home, n - 1, id) + (if home(points[n - 1]) == Some(id) then [points[n - 1]] else [])
  }

  /** Points without a home among the first `n`. */
  function Homeless(points: seq<Point>, home: Homing, n: nat): nat
    requires n <= |points|
    decreases n
  {
    if n == 0 then 0
    else
      Homeless(points, home, n - 1) + (if home(points[n - 1]).None? then 1 else 0)
  }

  /** Each list holds the points of one shard and there are no empty lists. */
  ghost predicate AreLists(lists: map<nat, seq<Point>>, points: seq<Point>, home: Homing, n: nat)
    requires n <= |points|
  {
    && (forall id: nat :: id in lists <==> Listed(points, home, n, id) != [])
    && (forall id: nat :: id in lists ==> lists[id] == Listed(points, home, n, id))
  }

  function Appended(lists: map<nat, seq<Point>>, id: nat, p: Point): map<nat, seq<Point>> {
    lists[id := (if id in lists then lists[id] else []) + [p]]
  }

  lemma ListsNext(lists: map<nat, seq<Point>>, points: seq<Point>, home: Homing, n: nat, id: nat)
    requires n < |points| && AreLists(lists, points, home, n) && home(points[n]) == Some(id)
    ensures AreLists(Appended(lists, id, points[n]), points, home, n + 1)
  {
  }

  lemma ListsSkip(lists: map<nat, seq<Point>>, points: seq<Point>, home: Homing, n: nat)
    requires n < |points| && AreLists(lists, points, home, n) && home(points[n]).None?
    ensures AreLists(lists, points, home, n + 1)
  {
    assert forall id: nat :: Listed(points, home, n + 1, id) == Listed(points, home, n, id);
  }

  predicate Belongs(points: seq<Point>, home: Homing, id: nat, i: nat) {
    i < |points| && home(points[i]) == Some(id)
  }

  /** `list` is the points at the increasing positions `at`, which are those below `n` that belong. */
  ghost predicate Selects(at: seq<nat>, list: seq<Point>, points: seq<Point>, home: Homing, n: nat, id: nat) {
    && |at| == |list|
    && (forall j, k :: 0 <= j < k < |at| ==> at[j] < at[k])
    && (forall k :: 0 <= k < |at| ==> at[k] < n && at[k] < |points| && list[k] == points[at[k]])
    && (forall i :: i in at ==> Belongs(points, home, id, i))
    && (forall i: nat {:trigger Belongs(points, home, id, i)} :: i < n && Belongs(points, home, id, i) ==> i in at)
  }

  lemma SelectsNext(at: seq<nat>, list: seq<Point>, points: seq<Point>, home: Homing, n: nat, id: nat)
    requires n < |points| && Selects(at, list, points, home, n, id)
    ensures Belongs(points, home, id, n) ==> Selects(at + [n], list + [points[n]], points, home, n + 1, id)
    ensures !Belongs(points, home, id, n) ==> Selects(at, list, points, home, n + 1, id)
  {
  }

  lemma ListedNext(points: seq<Point>, home: Homing, n: nat, id: nat)
    requires n < |points|
    ensures Listed(points, home, n + 1, id) ==
            Listed(points, home, n, id) + (if Belongs(points, home, id, n) then [points[n]] else [])
  {
  }

  /** A shard's list is the request's points that belong there, each once and in request order. */
  lemma {:induction false} ListedInOrder(points: seq<Point>, home: Homing, n: nat, id: nat) returns (at: seq<nat>)
    requires n <= |points|
    ensures Selects(at, Listed(points, home, n, id), points, home, n, id)
    decreases n
  {
    at := [];
    if n > 0 {
      var m := n - 1;
      at := ListedInOrder(points, home, m, id);
      ListedNext(points, home, m, id);
      var list := Listed(points, home, m, id);
      SelectsNext(at, list, points, home, m, id);
      if Belongs(points, home, id, m) {
        at := at + [m];
      } else {
        assert list + [] == list;
      }
    }
  }

  /** The lists of all shards with an ID below `bound` together. */
  function Total(points: seq<Point>, home: Homing, n: nat, bound: nat): nat
    requires n <= |points|
    decreases bound
  {
    if bound == 0 then 0 else Total(points, home, n, bound - 1) + |Listed(points, home, n, bound - 1)|
  }

  lemma {:induction false} TotalNext(points: seq<Point>, home: Homing, n: nat, bound: nat)
    requires n < |points|
    ensures Total(points, home, n + 1, bound) == Total(points, home, n, bound) +
            (if home(points[n]).Some? && home(points[n]).value < bound then 1 else 0)
    decreases bound
  {
    if bound > 0 {
      TotalNext(points, home, n, bound - 1);
    }
  }

  lemma {:induction false} TotalOfNone(points: seq<Point>, home: Homing, bound: nat)
    ensures Total(points, home, 0, bound) == 0
    decreases bound
  {
    if bound > 0 {
      TotalOfNone(points, home, bound - 1);
    }
  }

  lemma HomelessNext(points: seq<Point>, home: Homing, n: nat)
    requires n < |points|
    ensures Homeless(points, home, n + 1) == Homeless(points, home, n) + (if home(points[n]).None? then 1 else 0)
  {
  }

  predicate HomesBelow(points: seq<Point>, home: Homing, bound: nat) {
    forall i :: 0 <= i < |points| && home(points[i]).Some? ==> home(points[i]).value < bound
  }

  lemma {:induction false} TotalAndHomeless(points: seq<Point>, home: Homing, n: nat, bound: nat)
    requires n <= |points| && HomesBelow(points, home, bound)
    ensures Total(points, home, n, bound) + Homeless(points, home, n) == n
    decreases n
  {
    if n == 0 {
      TotalOfNone(points, home, bound);
    } else {
      var m := n - 1;
      TotalAndHomeless(points, home, m, bound);
      TotalNext(points, home, m, bound);
      HomelessNext(points, home, m);
      assert Total(points, home, m + 1, bound) + Homeless(points, home, m + 1) == m + 1;
    }
  }

  /** Points in the lists of all shards with an ID below `bound`. */
  function Stored(lists: map<nat, seq<Point>>, bound: nat): nat {
    if bound == 0 then 0
    else Stored(lists, bound - 1) + LengthAt(lists, bound - 1)
  }

  function LengthAt(lists: map<nat, seq<Point>>, id: nat): nat {
    if id in lists then |lists[id]| else 0
  }

  lemma ListLength(lists: map<nat, seq<Point>>, points: seq<Point>, home: Homing, n: nat, id: nat)
    requires n <= |points| && AreLists(lists, points, home, n)
    ensures LengthAt(lists, id) == |Listed(points, home, n, id)|
  {
  }

  ghost predicate SameLengths(lists: map<nat, seq<Point>>, points: seq<Point>, home: Homing, n: nat)
    requires n <= |points|
  {
    forall id: nat {:trigger LengthAt(lists, id)} :: LengthAt(lists, id) == |Listed(points, home, n, id)|
  }

  lemma {:induction false} StoredIsTotal(lists: map<nat, seq<Point>>, points: seq<Point>, home: Homing, n: nat,
                                         bound: nat)
    requires n <= |points| && SameLengths(lists, points, home, n)
    ensures Stored(lists, bound) == Total(points, home, n, bound)
    decreases bound
  {
    if bound > 0 {
      StoredIsTotal(lists, points, home, n, bound - 1);
    }
  }

  /** Nothing is lost or written twice: the mapped points and the dropped ones make up the request. */
  lemma MappedPlusDropped(lists: map<nat, seq<Point>>, points: seq<Point>, home: Homing, bound: nat)
    requires AreLists(lists, points, home, |points|)
    requires forall id :: id in lists ==> id < bound
    ensures Stored(lists, bound) + Homeless(points, home, |points|) == |points|
  {
    forall i | 0 <= i < |points| && home(points[i]).Some?
      ensures home(points[i]).value < bound
    {
      var id := home(points[i]).value;
      var at := ListedInOrder(points, home, |points|, id);
      assert Belongs(points, home, id, i);
    }
    TotalAndHomeless(points, home, |points|, bound);
    forall id: nat {
      ListLength(lists, points, home, |points|, id);
    }
    StoredIsTotal(lists, points, home, |points|, bound);
  }

  // ---------------------------------------------------------------------------------------
  // The mapping
  // ---------------------------------------------------------------------------------------

  class ShardMapping {
    var points: map<nat, seq<Point>>
    var shards: map<nat, Shard>

    constructor ()
      ensures points == map[] && shards == map[]
    {
      points, shards := map[], map[];
    }

    method MapPoint(shard: Shard, p: Point)
      modifies this
      ensures points == Appended(old(points), shard.id, p)
      ensures shards == old(shards)[shard.id := shard]
    {
      if shard.id !in points {
        points := points[shard.id := [p]];
        assert [] + [p] == [p];
      } else {
        points := points[shard.id := points[shard.id] + [p]];
      }
      shards := shards[shard.id := shard];
    }

    /** The first `n` points of the request are mapped, and nothing else; each list has its shard. */
    ghost predicate Maps(r: Request, n: nat)
      reads this
      requires n <= |r.points|
    {
      && AreLists(points, r.points, HomeId(r), n)
      && points.Keys == shards.Keys
      && (forall id: nat :: id in shards ==> shards[id].id == id && IsAHome(r, shards[id]))
    }
  }

  ghost predicate IsAHome(r: Request, shard: Shard) {
    exists i :: 0 <= i < |r.points| && Home(r, r.points[i]) == Some(shard)
  }

  datatype MapResult = Mapped(mapping: ShardMapping) | LookupFailed | PolicyNotFound | GroupFailed

  /** The needed ranges with the groups that were obtained for them. */
  ghost predicate HasGroups(r: Request, ranges: map<int, Group>) {
    && ranges.Keys == Ranges(r, |r.points|)
    && (forall t :: t in ranges ==> r.create(t) == Some(ranges[t]) && ranges[t] != [])
  }

  lemma HomeIsInGroup(r: Request, ranges: map<int, Group>, p: Point)
    requires HasGroups(r, ranges)
    ensures var t := RangeOf(r, p);
            Home(r, p) == if t in ranges then Some(ranges[t][p.hash % |ranges[t]|]) else None
  {
  }

  class PointsWriter {
    var writeDropped: nat

    /** The ranges of the points that are not too old. */
    static method TimeRanges(r: Request) returns (ranges: map<int, Group>)
      ensures ranges.Keys == Ranges(r, |r.points|)
    {
      ranges := map[];
      for i := 0 to |r.points|
        invariant ranges.Keys == Ranges(r, i)
      {
        var p := r.points[i];
        if p.time < r.cutoff {
          continue;
        }
        ranges := ranges[Truncate(p.time, r.width) := []];
      }
    }

    /** Asks for the groups one by one, in any order, and gives up at the first that fails. */
    static method CreateGroups(r: Request, wanted: map<int, Group>) returns (ok: bool, ranges: map<int, Group>)
      ensures ok <==> forall t :: t in wanted ==> r.create(t).Some?
      ensures ok ==> ranges.Keys == wanted.Keys && forall t :: t in ranges ==> r.create(t) == Some(ranges[t])
    {
      ranges := wanted;
      var todo := wanted.Keys;
      while todo != {}
        invariant todo <= ranges.Keys
        invariant ranges.Keys == wanted.Keys
        invariant forall t :: t in ranges && t !in todo ==> r.create(t) == Some(ranges[t])
        decreases todo
      {
        assert (forall t :: t !in todo) ==> todo == {};
        var t :| t in todo;
        var group := r.create(t);
        if group.None? {
          return false, ranges;
        }
        ranges := ranges[t := group.value];
        todo := todo - {t};
      }
      ok := true;
    }

    method MapShards(lookup: Lookup, points: seq<Point>, now: int, create: int -> Option<Group>)
      returns (result: MapResult)
      requires Populated(create)
      modifies this`writeDropped
      ensures lookup.LookupError? <==> result.LookupFailed?
      ensures lookup.NoPolicy? <==> result.PolicyNotFound?
      ensures lookup.Found? ==>
                var r := Request(points, Cutoff(lookup.policy, now), lookup.policy.shardGroupDuration, create);
                && (result.Mapped? <==> Creatable(r))
                && (result.Mapped? ==> fresh(result.mapping) && result.mapping.Maps(r, |points|)
                                       && writeDropped == old(writeDropped) + Homeless(points, HomeId(r), |points|))
      ensures !result.Mapped? ==> writeDropped == old(writeDropped)
    {
      match lookup
      case LookupError => return LookupFailed;
      case NoPolicy => return PolicyNotFound;
      case Found(policy) =>
        var r := Request(points, Cutoff(policy, now), policy.shardGroupDuration, create);
        var wanted := TimeRanges(r);
        CreatableExactly(r);
        var ok, ranges := CreateGroups(r, wanted);
        if !ok {
          return GroupFailed;
        }
        var mapping := Place(r, ranges);
        return Mapped(mapping);
    }

    method Place(r: Request, ranges: map<int, Group>) returns (mapping: ShardMapping)
      requires HasGroups(r, ranges)
      modifies this`writeDropped
      ensures fresh(mapping) && mapping.Maps(r, |r.points|)
      ensures writeDropped == old(writeDropped) + Homeless(r.points, HomeId(r), |r.points|)
    {
      mapping := new ShardMapping();
      for i := 0 to |r.points|
        invariant fresh(mapping) && mapping.Maps(r, i)
        invariant writeDropped == old(writeDropped) + Homeless(r.points, HomeId(r), i)
      {
        PlaceOne(r, ranges, mapping, i);
      }
    }

    method PlaceOne(r: Request, ranges: map<int, Group>, mapping: ShardMapping, i: nat)
      requires i < |r.points| && mapping.Maps(r, i) && HasGroups(r, ranges)
      modifies this`writeDropped, mapping
      ensures mapping.Maps(r, i + 1)
      ensures writeDropped - Homeless(r.points, HomeId(r), i + 1) ==
              old(writeDropped) - Homeless(r.points, HomeId(r), i)
    {
      var p := r.points[i];
      var t := Truncate(p.time, r.width);
      HomeIsInGroup(r, ranges, p);
      if t !in ranges {
        writeDropped := writeDropped + 1;
        ListsSkip(mapping.points, r.points, HomeId(r), i);
      } else {
        var group := ranges[t];
        var shard := group[p.hash % |group|];
        ListsNext(mapping.points, r.points, HomeId(r), i, shard.id);
        assert IsAHome(r, shard);
        mapping.MapPoint(shard, p);
      }
    }
  }

  // ---------------------------------------------------------------------------------------
  // Which points are mapped
  // ---------------------------------------------------------------------------------------

  /** Every point that is not too old is mapped. */
  lemma RecentPointsAreMapped(r: Request, p: Point)
    requires Populated(r.create) && Creatable(r) && p in r.points && r.cutoff <= p.time
    ensures Home(r, p).Some?
  {
    NeededExactly(r, RangeOf(r, p));
  }

  /** A point is dropped exactly if no recent point shares its range. */
  lemma DroppedExactly(r: Request, p: Point)
    requires Populated(r.create) && Creatable(r)
    ensures Home(r, p).None? <==> forall q :: q in r.points && r.cutoff <= q.time ==> RangeOf(r, q) != RangeOf(r, p)
  {
    NeededExactly(r, RangeOf(r, p));
  }

  /** Points before the cutoff are all dropped exactly if none of them shares its range with a recent
      point. */
  lemma OldPointsDroppedExactly(r: Request)
    requires Populated(r.create) && Creatable(r)
    ensures (forall p :: p in r.points && p.time < r.cutoff ==> Home(r, p).None?)
       <==> (forall p, q :: p in r.points && q in r.points && p.time < r.cutoff <= q.time ==>
               RangeOf(r, p) != RangeOf(r, q))
  {
    forall p | p in r.points
      ensures Home(r, p).None? <==> forall q :: q in r.points && r.cutoff <= q.time ==> RangeOf(r, q) != RangeOf(r, p)
    {
      DroppedExactly(r, p);
    }
  }

  /** An old point that slips through is less than one range too old. */
  lemma MappedPointsAreNearlyRecent(r: Request, p: Point)
    requires p in r.points && Home(r, p).Some? && p.time < r.cutoff
    ensures r.cutoff - r.width < p.time
  {
    NeededExactly(r, RangeOf(r, p));
    var q :| q in r.points && r.cutoff <= q.time && RangeOf(r, q) == RangeOf(r, p);
    if r.width > 0 {
      TruncateIsFloor(p.time, r.width);
      TruncateIsFloor(q.time, r.width);
    }
  }

  /** One does slip through: a range of sixty nanoseconds with the cutoff in its middle. */
  lemma AnOldPointIsMapped()
    ensures var late, recent := Point(10, 0, 0), Point(40, 0, 0);
            var r := Request([late, recent], 30, 60, t => Some([Shard(7, 0)]));
            late.time < r.cutoff && Home(r, late) == Some(Shard(7, 0))
  {
    var late, recent := Point(10, 0, 0), Point(40, 0, 0);
    var r := Request([late, recent], 30, 60, t => Some([Shard(7, 0)]));
    assert recent in r.points;
    NeededExactly(r, RangeOf(r, late));
  }

  // ---------------------------------------------------------------------------------------
  // What is too old, and where a point goes
  // ---------------------------------------------------------------------------------------

  /** With a retention period, a time is too old when that period has passed since; without one, only
      when it is before every time that can be stored. */
  lemma TooOldExactly(policy: Policy, now: int, t: int)
    ensures policy.duration > 0 ==> (t < Cutoff(policy, now) <==> t + policy.duration < now)
    ensures policy.duration <= 0 ==> (t < Cutoff(policy, now) <==> t < -0x8000_0000_0000_0000)
  {
  }

  /** A point goes to the shard whose place in the group is its hash, counted around the group; it is
      dropped exactly when its time range was not asked for or has no group. */
  lemma HomeExactly(r: Request, p: Point, rounds: nat, place: nat)
    ensures var t := RangeOf(r, p);
            var group := r.create(t);
            && (Home(r, p).None? <==> !Needed(r, t) || group.None? || group.value == [])
            && (Home(r, p).Some? && place < |group.value| && p.hash == rounds * |group.value| + place
                ==> Home(r, p) == Some(group.value[place]))
  {
    var group := r.create(RangeOf(r, p));
    if Home(r, p).Some? && place < |group.value| && p.hash == rounds * |group.value| + place {
      DivMod(p.hash, |group.value|, rounds, place);
    }
  }
}
