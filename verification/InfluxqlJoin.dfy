/** The full outer join of point streams by (time, name, tags), in emission order, and the
    grouping of its lines into rows. This is what the emitter is checked against. */
module InfluxqlJoin {
  import opened Common

  /** Field values carried by points; nothing is assumed about them. */
  type Datum(==, !new)

  /** A tag set with its memoized identifier; tag sets compare by identifier. */
  datatype Tags = Tags(id: string, keyValues: map<string, string>)

  datatype Cell = Null | Stamp(time: Int64) | Val(datum: Datum)

  datatype Point = Point(time: Int64, name: string, tags: Tags, value: Cell)

  /** What points are ordered and joined by. */
  datatype Key = Key(time: Int64, name: string, id: string)

  function KeyOf(p: Point): Key { Key(p.time, p.name, p.tags.id) }

  /** Lexicographic order on strings. */
  predicate StrLess(a: string, b: string) {
    if b == [] then false
    else if a == [] then true
    else a[0] < b[0] || (a[0] == b[0] && StrLess(a[1..], b[1..]))
  }

  predicate KeyLess(a: Key, b: Key) {
    || a.time < b.time
    || (a.time == b.time && StrLess(a.name, b.name))
    || (a.time == b.time && a.name == b.name && StrLess(a.id, b.id))
  }

  /** `a` is emitted before `b`. */
  predicate Before(ascending: bool, a: Key, b: Key) {
    if ascending then KeyLess(a, b) else KeyLess(b, a)
  }

  lemma {:induction false} StrLessTotal(a: string, b: string)
    ensures a != b <==> StrLess(a, b) || StrLess(b, a)
    ensures !(StrLess(a, b) && StrLess(b, a))
  {
    if a != [] && b != [] {
      StrLessTotal(a[1..], b[1..]);
      assert a == [a[0]] + a[1..] && b == [b[0]] + b[1..];
    }
  }

  /** The order of strings: by the first place where they differ, or a proper prefix first. */
  lemma {:induction false} StrLessExactly(a: string, b: string)
    ensures StrLess(a, b) <==>
            || (|a| < |b| && a == b[..|a|])
            || exists i :: 0 <= i < |a| && i < |b| && a[..i] == b[..i] && a[i] < b[i]
  {
    if a != [] && b != [] {
      StrLessExactly(a[1..], b[1..]);
      if a[0] == b[0] {
        assert forall i :: 0 < i <= |a| && i <= |b| ==> (a[..i] == b[..i] <==> a[1..][..i - 1] == b[1..][..i - 1]) by {
          forall i | 0 < i <= |a| && i <= |b|
            ensures a[..i] == b[..i] <==> a[1..][..i - 1] == b[1..][..i - 1]
          {
            assert a[..i] == [a[0]] + a[1..][..i - 1] && b[..i] == [b[0]] + b[1..][..i - 1];
            assert a[1..][..i - 1] == a[..i][1..] && b[1..][..i - 1] == b[..i][1..];
          }
        }
        if i :| 0 <= i < |a| && i < |b| && a[..i] == b[..i] && a[i] < b[i] {
          assert a[1..][i - 1] < b[1..][i - 1];
        }
        if i :| 0 <= i < |a[1..]| && i < |b[1..]| && a[1..][..i] == b[1..][..i] && a[1..][i] < b[1..][i] {
          assert a[..i + 1] == b[..i + 1] && a[i + 1] < b[i + 1];
        }
        assert |a| < |b| ==> (a == b[..|a|] <==> a[1..] == b[1..][..|a| - 1]) by {
          assert a == a[..|a|];
          assert a[1..][..|a| - 1] == a[1..];
        }
      } else if a[0] < b[0] {
        assert a[..0] == b[..0];
      }
    } else if a == [] && b != [] {
      assert a == b[..0];
    }
  }

  lemma {:induction false} StrLessTransitive(a: string, b: string, c: string)
    requires StrLess(a, b) && StrLess(b, c)
    ensures StrLess(a, c)
  {
    if a != [] && a[0] == b[0] == c[0] {
      StrLessTransitive(a[1..], b[1..], c[1..]);
    }
  }

  lemma BeforeTotal(ascending: bool, a: Key, b: Key)
    ensures a != b <==> Before(ascending, a, b) || Before(ascending, b, a)
    ensures !(Before(ascending, a, b) && Before(ascending, b, a))
  {
    StrLessTotal(a.name, b.name);
    StrLessTotal(a.id, b.id);
  }

  /** Keys go by time, forward or backward, then by name, then by tags. */
  lemma KeyOrderExactly(a: Key, b: Key)
    ensures a.time < b.time ==> Before(true, a, b) && Before(false, b, a)
    ensures a.time == b.time && a.name != b.name ==>
              (Before(true, a, b) <==> StrLess(a.name, b.name)) && (Before(false, a, b) <==> StrLess(b.name, a.name))
    ensures a.time == b.time && a.name == b.name ==>
              (Before(true, a, b) <==> StrLess(a.id, b.id)) && (Before(false, a, b) <==> StrLess(b.id, a.id))
  {
    StrLessTotal(a.name, b.name);
    StrLessTotal(a.id, b.id);
  }

  lemma KeyLessTransitive(a: Key, b: Key, c: Key)
    requires KeyLess(a, b) && KeyLess(b, c)
    ensures KeyLess(a, c)
  {
    if StrLess(a.name, b.name) && StrLess(b.name, c.name) {
      StrLessTransitive(a.name, b.name, c.name);
    }
    if StrLess(a.id, b.id) && StrLess(b.id, c.id) {
      StrLessTransitive(a.id, b.id, c.id);
    }
  }

  lemma BeforeTransitive(ascending: bool, a: Key, b: Key, c: Key)
    requires Before(ascending, a, b) && Before(ascending, b, c)
    ensures Before(ascending, a, c)
  {
    if ascending {
      KeyLessTransitive(a, b, c);
    } else {
      KeyLessTransitive(c, b, a);
    }
  }

  // ---------------------------------------------------------------------------------------
  // Joining by repeatedly taking the first key among the heads
  // ---------------------------------------------------------------------------------------

  type Stream = seq<Point>

  /** One joined line: a cell per stream. */
  datatype Line = Line(time: Int64, name: string, tags: Tags, cells: seq<Cell>)

  function LineKey(x: Line): Key { Key(x.time, x.name, x.tags.id) }

  function Head(s: Stream): Option<Point> { if s == [] then None else Some(s[0]) }

  function Heads(streams: seq<Stream>): (h: seq<Option<Point>>)
    ensures |h| == |streams| && forall i :: 0 <= i < |h| ==> h[i] == Head(streams[i])
  {
    seq(|streams|, i requires 0 <= i < |streams| => Head(streams[i]))
  }

  /** The head that comes first; among equal keys the one of the lowest index. */
  function First(heads: seq<Option<Point>>, ascending: bool): Option<Point> {
    if heads == [] then None
    else
      var n := |heads| - 1;
      var r := First(heads[..n], ascending);
      if heads[n].None? then r
      else if r.None? || Before(ascending, KeyOf(heads[n].value), KeyOf(r.value)) then heads[n]
      else r
  }

  lemma {:induction false} FirstIsAHead(heads: seq<Option<Point>>, ascending: bool)
    requires First(heads, ascending).Some?
    ensures exists i :: 0 <= i < |heads| && heads[i] == First(heads, ascending)
  {
    var n := |heads| - 1;
    if First(heads, ascending) == heads[n] {
    } else {
      FirstIsAHead(heads[..n], ascending);
    }
  }

  predicate At(h: Option<Point>, k: Key) { h.Some? && KeyOf(h.value) == k }

  function CellsAt(heads: seq<Option<Point>>, k: Key): (c: seq<Cell>)
    ensures |c| == |heads|
    ensures forall i :: 0 <= i < |heads| ==> c[i] == if At(heads[i], k) then heads[i].value.value else Null
  {
    seq(|heads|, i requires 0 <= i < |heads| => if At(heads[i], k) then heads[i].value.value else Null)
  }

  /** Every stream whose head has key `k` moves on. */
  function Advance(streams: seq<Stream>, k: Key): (r: seq<Stream>)
    ensures |r| == |streams|
    ensures forall i :: 0 <= i < |streams| ==>
              r[i] == if At(Head(streams[i]), k) then streams[i][1..] else streams[i]
  {
    seq(|streams|, i requires 0 <= i < |streams| =>
      if At(Head(streams[i]), k) then streams[i][1..] else streams[i])
  }

  function Total(streams: seq<Stream>): nat {
    if streams == [] then 0 else |streams[0]| + Total(streams[1..])
  }

  lemma {:induction false} TotalShrinks(s: seq<Stream>, t: seq<Stream>)
    requires |s| == |t| && forall i :: 0 <= i < |s| ==> |t[i]| <= |s[i]|
    ensures Total(t) <= Total(s)
    ensures (exists i :: 0 <= i < |s| && |t[i]| < |s[i]|) ==> Total(t) < Total(s)
  {
    if s != [] {
      TotalShrinks(s[1..], t[1..]);
      if i :| 0 <= i < |s| && |t[i]| < |s[i]| {
        if i > 0 {
          assert s[1..][i - 1] == s[i] && t[1..][i - 1] == t[i];
        }
      }
    }
  }

  function JoinedLine(heads: seq<Option<Point>>, first: Point): Line {
    Line(first.time, first.name, first.tags, CellsAt(heads, KeyOf(first)))
  }

  lemma AdvanceShrinks(streams: seq<Stream>, ascending: bool)
    requires First(Heads(streams), ascending).Some?
    ensures Total(Advance(streams, KeyOf(First(Heads(streams), ascending).value))) < Total(streams)
  {
    var first := First(Heads(streams), ascending).value;
    FirstIsAHead(Heads(streams), ascending);
    var i :| 0 <= i < |streams| && Heads(streams)[i] == Some(first);
    var next := Advance(streams, KeyOf(first));
    assert |next[i]| < |streams[i]|;
    TotalShrinks(streams, next);
  }

  function Join(streams: seq<Stream>, ascending: bool): seq<Line>
    decreases Total(streams)
  {
    var first := First(Heads(streams), ascending);
    if first.None? then []
    else
      AdvanceShrinks(streams, ascending);
      [JoinedLine(Heads(streams), first.value)] + Join(Advance(streams, KeyOf(first.value)), ascending)
  }

  // ---------------------------------------------------------------------------------------
  // The join described without an algorithm
  // ---------------------------------------------------------------------------------------

  predicate Ordered(s: Stream, ascending: bool) {
    forall i, j :: 0 <= i < j < |s| ==> Before(ascending, KeyOf(s[i]), KeyOf(s[j]))
  }

  predicate AllOrdered(streams: seq<Stream>, ascending: bool) {
    forall i :: 0 <= i < |streams| ==> Ordered(streams[i], ascending)
  }

  predicate InStream(s: Stream, k: Key) {
    exists i :: 0 <= i < |s| && KeyOf(s[i]) == k
  }

  predicate InAny(streams: seq<Stream>, k: Key) {
    exists i :: 0 <= i < |streams| && InStream(streams[i], k)
  }

  /** The cell a stream contributes at key `k`: the value of its point there, or null. */
  predicate IsCell(s: Stream, k: Key, c: Cell) {
    if InStream(s, k) then exists i :: 0 <= i < |s| && KeyOf(s[i]) == k && c == s[i].value
    else c == Null
  }

  predicate LinesOrdered(lines: seq<Line>, ascending: bool) {
    forall i, j :: 0 <= i < j < |lines| ==> Before(ascending, LineKey(lines[i]), LineKey(lines[j]))
  }

  predicate HasKey(lines: seq<Line>, k: Key) {
    exists i :: 0 <= i < |lines| && LineKey(lines[i]) == k
  }

  /** A point of the stream has this key and these tags. */
  predicate IsTagged(s: Stream, k: Key, tags: Tags) {
    exists i :: 0 <= i < |s| && KeyOf(s[i]) == k && s[i].tags == tags
  }

  predicate IsTaggedInAny(streams: seq<Stream>, k: Key, tags: Tags) {
    exists c :: 0 <= c < |streams| && IsTagged(streams[c], k, tags)
  }

  predicate HasCells(streams: seq<Stream>, x: Line) {
    |x.cells| == |streams| && forall c :: 0 <= c < |streams| ==> IsCell(streams[c], LineKey(x), x.cells[c])
  }

  predicate IsOuterLine(streams: seq<Stream>, x: Line) {
    HasCells(streams, x) && IsTaggedInAny(streams, LineKey(x), x.tags)
  }

  /** One line for each key in any stream, in order, with every stream's cell for that key and the
      tags of a point with that key. */
  ghost predicate IsOuterJoin(streams: seq<Stream>, ascending: bool, lines: seq<Line>) {
    && LinesOrdered(lines, ascending)
    && (forall k: Key :: HasKey(lines, k) <==> InAny(streams, k))
    && (forall i :: 0 <= i < |lines| ==> IsOuterLine(streams, lines[i]))
  }

  lemma {:induction false} FirstIsLeast(heads: seq<Option<Point>>, ascending: bool, i: int)
    requires 0 <= i < |heads| && heads[i].Some?
    ensures var r := First(heads, ascending);
            r.Some? && !Before(ascending, KeyOf(heads[i].value), KeyOf(r.value))
  {
    var n := |heads| - 1;
    var q, r := First(heads[..n], ascending), First(heads, ascending);
    if i < n {
      FirstIsLeast(heads[..n], ascending, i);
      if r != q {
        BeforeTotal(ascending, KeyOf(heads[i].value), KeyOf(q.value));
        if Before(ascending, KeyOf(heads[i].value), KeyOf(r.value)) {
          BeforeTransitive(ascending, KeyOf(heads[i].value), KeyOf(r.value), KeyOf(q.value));
        }
      }
    } else {
      BeforeTotal(ascending, KeyOf(heads[i].value), KeyOf(r.value));
    }
  }

  /** With ordered streams no key anywhere comes before the first head's. */
  lemma FirstKeyIsLeast(streams: seq<Stream>, ascending: bool, k: Key)
    requires AllOrdered(streams, ascending) && InAny(streams, k)
    ensures var r := First(Heads(streams), ascending);
            r.Some? && (k == KeyOf(r.value) || Before(ascending, KeyOf(r.value), k))
  {
    var i :| 0 <= i < |streams| && InStream(streams[i], k);
    var j :| 0 <= j < |streams[i]| && KeyOf(streams[i][j]) == k;
    FirstIsLeast(Heads(streams), ascending, i);
    var r, h := KeyOf(First(Heads(streams), ascending).value), KeyOf(streams[i][0]);
    BeforeTotal(ascending, h, r);
    if j > 0 && h != r {
      BeforeTransitive(ascending, r, h, k);
    }
  }

  /** Advancing past the first key removes exactly that key from every stream. */
  lemma AdvanceRemovesKey(s: Stream, ascending: bool, first: Key, k: Key)
    requires Ordered(s, ascending)
    requires InStream(s, first) ==> KeyOf(s[0]) == first
    ensures var t := if At(Head(s), first) then s[1..] else s;
            && Ordered(t, ascending)
            && (InStream(t, k) <==> InStream(s, k) && k != first)
            && (k != first ==> forall c: Cell :: IsCell(t, k, c) <==> IsCell(s, k, c))
            && (forall tags: Tags :: IsTagged(t, k, tags) ==> IsTagged(s, k, tags))
  {
    var t := if At(Head(s), first) then s[1..] else s;
    BeforeTotal(ascending, first, first);
    if At(Head(s), first) {
      assert forall i :: 0 <= i < |t| ==> t[i] == s[i + 1];
      assert forall i :: 0 < i < |s| ==> s[i] == t[i - 1];
      assert forall i :: 0 <= i < |t| ==> KeyOf(t[i]) != first by {
        forall i | 0 <= i < |t|
          ensures KeyOf(t[i]) != first
        {
          assert Before(ascending, KeyOf(s[0]), KeyOf(s[i + 1]));
        }
      }
    }
  }

  /** If the first key occurs in an ordered stream, it is that stream's head. */
  lemma FirstKeyIsHead(streams: seq<Stream>, ascending: bool, c: int)
    requires AllOrdered(streams, ascending) && 0 <= c < |streams|
    requires First(Heads(streams), ascending).Some?
    ensures var first := KeyOf(First(Heads(streams), ascending).value);
            InStream(streams[c], first) ==> KeyOf(streams[c][0]) == first
  {
    var first := KeyOf(First(Heads(streams), ascending).value);
    if InStream(streams[c], first) {
      var j :| 0 <= j < |streams[c]| && KeyOf(streams[c][j]) == first;
      FirstIsLeast(Heads(streams), ascending, c);
      BeforeTotal(ascending, KeyOf(streams[c][0]), first);
    }
  }

  /** The state of all streams after one line, key by key. */
  lemma AdvanceOne(streams: seq<Stream>, ascending: bool, c: int, k: Key)
    requires AllOrdered(streams, ascending) && 0 <= c < |streams|
    requires First(Heads(streams), ascending).Some?
    ensures var first := KeyOf(First(Heads(streams), ascending).value);
            var next := Advance(streams, first);
            && Ordered(next[c], ascending)
            && (InStream(next[c], k) <==> InStream(streams[c], k) && k != first)
            && (k != first ==> forall d: Cell :: IsCell(next[c], k, d) <==> IsCell(streams[c], k, d))
            && (forall tags: Tags :: IsTagged(next[c], k, tags) ==> IsTagged(streams[c], k, tags))
  {
    FirstKeyIsHead(streams, ascending, c);
    AdvanceRemovesKey(streams[c], ascending, KeyOf(First(Heads(streams), ascending).value), k);
  }

  lemma AdvanceAll(streams: seq<Stream>, ascending: bool)
    requires AllOrdered(streams, ascending)
    requires First(Heads(streams), ascending).Some?
    ensures var first := KeyOf(First(Heads(streams), ascending).value);
            var next := Advance(streams, first);
            && AllOrdered(next, ascending)
            && (forall k: Key :: InAny(next, k) <==> InAny(streams, k) && k != first)
  {
    var first := KeyOf(First(Heads(streams), ascending).value);
    var next := Advance(streams, first);
    forall c, k: Key | 0 <= c < |streams|
      ensures Ordered(next[c], ascending)
      ensures InStream(next[c], k) <==> InStream(streams[c], k) && k != first
    {
      AdvanceOne(streams, ascending, c, k);
    }
  }

  /** A line of the join of what is left is a line of the whole join. */
  lemma LaterLineIsOuter(streams: seq<Stream>, ascending: bool, x: Line)
    requires AllOrdered(streams, ascending)
    requires First(Heads(streams), ascending).Some?
    requires LineKey(x) != KeyOf(First(Heads(streams), ascending).value)
    requires IsOuterLine(Advance(streams, KeyOf(First(Heads(streams), ascending).value)), x)
    ensures IsOuterLine(streams, x)
  {
    var next := Advance(streams, KeyOf(First(Heads(streams), ascending).value));
    forall c | 0 <= c < |streams|
      ensures IsCell(streams[c], LineKey(x), x.cells[c])
    {
      AdvanceOne(streams, ascending, c, LineKey(x));
    }
    var c :| 0 <= c < |next| && IsTagged(next[c], LineKey(x), x.tags);
    AdvanceOne(streams, ascending, c, LineKey(x));
  }

  lemma FirstLineIsOuter(streams: seq<Stream>, ascending: bool)
    requires AllOrdered(streams, ascending)
    requires First(Heads(streams), ascending).Some?
    ensures var first := First(Heads(streams), ascending).value;
            IsOuterLine(streams, JoinedLine(Heads(streams), first)) && InAny(streams, KeyOf(first))
  {
    var heads := Heads(streams);
    var first := First(heads, ascending).value;
    var x := JoinedLine(heads, first);
    forall c | 0 <= c < |streams|
      ensures IsCell(streams[c], KeyOf(first), x.cells[c])
    {
      FirstKeyIsHead(streams, ascending, c);
      if At(heads[c], KeyOf(first)) {
        assert KeyOf(streams[c][0]) == KeyOf(first) && x.cells[c] == streams[c][0].value;
      }
    }
    FirstIsAHead(heads, ascending);
    var i :| 0 <= i < |heads| && heads[i] == Some(first);
    assert streams[i][0] == first && InStream(streams[i], KeyOf(first));
    assert IsTagged(streams[i], KeyOf(first), first.tags);
  }

  lemma PrependOrdered(ascending: bool, x: Line, rest: seq<Line>)
    requires LinesOrdered(rest, ascending)
    requires forall i :: 0 <= i < |rest| ==> Before(ascending, LineKey(x), LineKey(rest[i]))
    ensures LinesOrdered([x] + rest, ascending)
  {
    var lines := [x] + rest;
    assert lines[0] == x && forall i :: 0 < i < |lines| ==> lines[i] == rest[i - 1];
  }

  lemma PrependLine(streams: seq<Stream>, x: Line, rest: seq<Line>)
    requires IsOuterLine(streams, x) && forall i :: 0 <= i < |rest| ==> IsOuterLine(streams, rest[i])
    ensures forall i :: 0 <= i < |[x] + rest| ==> IsOuterLine(streams, ([x] + rest)[i])
  {
    var lines := [x] + rest;
    assert lines[0] == x && forall i :: 0 < i < |lines| ==> lines[i] == rest[i - 1];
  }

  lemma PrependKeys(x: Line, rest: seq<Line>, k: Key)
    ensures HasKey([x] + rest, k) <==> k == LineKey(x) || HasKey(rest, k)
  {
    var lines := [x] + rest;
    assert lines[0] == x && forall i :: 0 < i < |lines| ==> lines[i] == rest[i - 1];
    if HasKey(rest, k) {
      var i :| 0 <= i < |rest| && LineKey(rest[i]) == k;
      assert lines[i + 1] == rest[i];
    }
  }

  /** The lines of what is left come after the first line. */
  lemma LaterLine(streams: seq<Stream>, ascending: bool, rest: seq<Line>, i: int)
    requires AllOrdered(streams, ascending)
    requires First(Heads(streams), ascending).Some?
    requires IsOuterJoin(Advance(streams, KeyOf(First(Heads(streams), ascending).value)), ascending, rest)
    requires 0 <= i < |rest|
    ensures var first := KeyOf(First(Heads(streams), ascending).value);
            LineKey(rest[i]) != first && Before(ascending, first, LineKey(rest[i])) && IsOuterLine(streams, rest[i])
  {
    AdvanceAll(streams, ascending);
    assert HasKey(rest, LineKey(rest[i]));
    FirstKeyIsLeast(streams, ascending, LineKey(rest[i]));
    LaterLineIsOuter(streams, ascending, rest[i]);
  }

  lemma PrependOuterKeys(streams: seq<Stream>, ascending: bool, x: Line, rest: seq<Line>, k: Key)
    requires AllOrdered(streams, ascending)
    requires First(Heads(streams), ascending).Some?
    requires LineKey(x) == KeyOf(First(Heads(streams), ascending).value) && InAny(streams, LineKey(x))
    requires HasKey(rest, k) <==> InAny(Advance(streams, LineKey(x)), k)
    ensures HasKey([x] + rest, k) <==> InAny(streams, k)
  {
    AdvanceAll(streams, ascending);
    PrependKeys(x, rest, k);
  }

  /** Putting the first line before the outer join of what is left. */
  lemma PrependOuterLine(streams: seq<Stream>, ascending: bool, rest: seq<Line>)
    requires AllOrdered(streams, ascending)
    requires First(Heads(streams), ascending).Some?
    requires IsOuterJoin(Advance(streams, KeyOf(First(Heads(streams), ascending).value)), ascending, rest)
    ensures IsOuterJoin(streams, ascending, [JoinedLine(Heads(streams), First(Heads(streams), ascending).value)] + rest)
  {
    var x := JoinedLine(Heads(streams), First(Heads(streams), ascending).value);
    FirstLineIsOuter(streams, ascending);
    forall i | 0 <= i < |rest|
      ensures Before(ascending, LineKey(x), LineKey(rest[i])) && IsOuterLine(streams, rest[i])
    {
      LaterLine(streams, ascending, rest, i);
    }
    PrependOrdered(ascending, x, rest);
    PrependLine(streams, x, rest);
    forall k: Key
      ensures HasKey([x] + rest, k) <==> InAny(streams, k)
    {
      PrependOuterKeys(streams, ascending, x, rest, k);
    }
  }

  /** On ordered streams, taking the first head again and again is the full outer join. */
  lemma {:induction false} JoinIsOuterJoin(streams: seq<Stream>, ascending: bool)
    requires AllOrdered(streams, ascending)
    ensures IsOuterJoin(streams, ascending, Join(streams, ascending))
    decreases Total(streams)
  {
    var first := First(Heads(streams), ascending);
    if first.None? {
      forall k: Key
        ensures !InAny(streams, k)
      {
        if InAny(streams, k) {
          FirstKeyIsLeast(streams, ascending, k);
        }
      }
    } else {
      var next := Advance(streams, KeyOf(first.value));
      AdvanceShrinks(streams, ascending);
      AdvanceAll(streams, ascending);
      JoinIsOuterJoin(next, ascending);
      PrependOuterLine(streams, ascending, Join(next, ascending));
    }
  }

  /** Two ordered line sequences with the same keys have them in the same places. */
  lemma {:induction false} SameKeysSamePlaces(ascending: bool, a: seq<Line>, b: seq<Line>)
    requires LinesOrdered(a, ascending) && LinesOrdered(b, ascending)
    requires forall k: Key :: HasKey(a, k) <==> HasKey(b, k)
    ensures |a| == |b| && forall i :: 0 <= i < |a| ==> LineKey(a[i]) == LineKey(b[i])
  {
    if a == [] || b == [] {
      assert a != [] ==> HasKey(a, LineKey(a[0]));
      assert b != [] ==> HasKey(b, LineKey(b[0]));
    } else {
      SameFirstKey(ascending, a, b);
      forall k: Key
        ensures HasKey(a[1..], k) <==> HasKey(b[1..], k)
      {
        DropFirstKey(ascending, a, k);
        DropFirstKey(ascending, b, k);
      }
      SameKeysSamePlaces(ascending, a[1..], b[1..]);
      assert forall i :: 0 < i < |a| ==> a[i] == a[1..][i - 1];
      assert forall i :: 0 < i < |b| ==> b[i] == b[1..][i - 1];
    }
  }

  lemma DropFirstKey(ascending: bool, a: seq<Line>, k: Key)
    requires a != [] && LinesOrdered(a, ascending)
    ensures HasKey(a[1..], k) <==> HasKey(a, k) && k != LineKey(a[0])
  {
    BeforeTotal(ascending, k, k);
    if HasKey(a[1..], k) {
      var i :| 0 <= i < |a[1..]| && LineKey(a[1..][i]) == k;
      assert a[i + 1] == a[1..][i];
      assert Before(ascending, LineKey(a[0]), LineKey(a[i + 1]));
    }
    if HasKey(a, k) && k != LineKey(a[0]) {
      var i :| 0 <= i < |a| && LineKey(a[i]) == k;
      assert a[1..][i - 1] == a[i];
    }
  }

  lemma SameFirstKey(ascending: bool, a: seq<Line>, b: seq<Line>)
    requires a != [] && b != [] && LinesOrdered(a, ascending) && LinesOrdered(b, ascending)
    requires forall k: Key :: HasKey(a, k) <==> HasKey(b, k)
    ensures LineKey(a[0]) == LineKey(b[0])
  {
    assert HasKey(a, LineKey(a[0])) && HasKey(b, LineKey(b[0]));
    var i :| 0 <= i < |b| && LineKey(b[i]) == LineKey(a[0]);
    var j :| 0 <= j < |a| && LineKey(a[j]) == LineKey(b[0]);
    BeforeTotal(ascending, LineKey(a[0]), LineKey(b[0]));
  }

  predicate StreamsAgree(s: Stream, t: Stream) {
    forall i, j :: 0 <= i < |s| && 0 <= j < |t| && s[i].tags.id == t[j].tags.id ==> s[i].tags == t[j].tags
  }

  /** Points with the same tag identifier have the same tags. */
  predicate TagsAgree(streams: seq<Stream>) {
    forall c, d :: 0 <= c < |streams| && 0 <= d < |streams| ==> StreamsAgree(streams[c], streams[d])
  }

  /** The description determines the join: keys, order, cells and tags. */
  lemma OuterJoinUnique(streams: seq<Stream>, ascending: bool, a: seq<Line>, b: seq<Line>)
    requires AllOrdered(streams, ascending) && TagsAgree(streams)
    requires IsOuterJoin(streams, ascending, a) && IsOuterJoin(streams, ascending, b)
    ensures a == b
  {
    SameKeysSamePlaces(ascending, a, b);
    forall i | 0 <= i < |a|
      ensures a[i] == b[i]
    {
      LineUnique(streams, ascending, a[i], b[i]);
    }
  }

  lemma LineUnique(streams: seq<Stream>, ascending: bool, x: Line, y: Line)
    requires AllOrdered(streams, ascending) && TagsAgree(streams)
    requires LineKey(x) == LineKey(y) && IsOuterLine(streams, x) && IsOuterLine(streams, y)
    ensures x == y
  {
    forall c | 0 <= c < |streams|
      ensures x.cells[c] == y.cells[c]
    {
      CellUnique(streams[c], ascending, LineKey(x), x.cells[c], y.cells[c]);
    }
    TagsUnique(streams, LineKey(x), x.tags, y.tags);
  }

  lemma CellUnique(s: Stream, ascending: bool, k: Key, c: Cell, d: Cell)
    requires Ordered(s, ascending) && IsCell(s, k, c) && IsCell(s, k, d)
    ensures c == d
  {
    BeforeTotal(ascending, k, k);
    if InStream(s, k) {
      var i :| 0 <= i < |s| && KeyOf(s[i]) == k && c == s[i].value;
      var j :| 0 <= j < |s| && KeyOf(s[j]) == k && d == s[j].value;
    }
  }

  // ---------------------------------------------------------------------------------------
  // Rows
  // ---------------------------------------------------------------------------------------

  datatype Row = Row(name: string, tags: map<string, string>, columns: seq<string>, values: seq<seq<Cell>>)

  /** A row under construction; `tagsId` is the identifier of its tags. */
  datatype Open = Open(row: Row, tagsId: string)

  /** How the emitter lays out rows. */
  datatype Layout = Layout(columns: seq<string>, omitTime: bool, chunkSize: int)

  function Values(f: Layout, x: Line): seq<Cell> {
    if f.omitTime then x.cells else [Stamp(x.time)] + x.cells
  }

  function OpenRow(f: Layout, x: Line): Open {
    Open(Row(x.name, x.tags.keyValues, f.columns, [Values(f, x)]), x.tags.id)
  }

  predicate Fits(f: Layout, o: Open, x: Line) {
    && o.row.name == x.name
    && o.tagsId == x.tags.id
    && (f.chunkSize <= 0 || |o.row.values| < f.chunkSize)
  }

  function Extend(f: Layout, o: Open, x: Line): Open {
    o.(row := o.row.(values := o.row.values + [Values(f, x)]))
  }

  /** The rows still to come: the open one, extended while lines fit, then the others. */
  function Rows(f: Layout, open: Option<Open>, lines: seq<Line>): seq<Row>
    decreases |lines|
  {
    if lines == [] then (if open.None? then [] else [open.value.row])
    else if open.None? then Rows(f, Some(OpenRow(f, lines[0])), lines[1..])
    else if Fits(f, open.value, lines[0]) then Rows(f, Some(Extend(f, open.value, lines[0])), lines[1..])
    else [open.value.row] + Rows(f, Some(OpenRow(f, lines[0])), lines[1..])
  }

  /** What one value of a row says, without regard to chunks. */
  datatype Entry = Entry(name: string, tags: map<string, string>, values: seq<Cell>)

  function RowEntries(r: Row): (es: seq<Entry>)
    ensures |es| == |r.values|
  {
    seq(|r.values|, i requires 0 <= i < |r.values| => Entry(r.name, r.tags, r.values[i]))
  }

  function Flatten(rows: seq<Row>): seq<Entry> {
    if rows == [] then [] else RowEntries(rows[0]) + Flatten(rows[1..])
  }

  function EntryOf(f: Layout, x: Line): Entry { Entry(x.name, x.tags.keyValues, Values(f, x)) }

  function LineEntries(f: Layout, lines: seq<Line>): seq<Entry> {
    if lines == [] then [] else [EntryOf(f, lines[0])] + LineEntries(f, lines[1..])
  }

  /** Tag sets with the same identifier are the same tag set. */
  predicate TagsById(open: Option<Open>, lines: seq<Line>) {
    && (forall i, j :: 0 <= i < j < |lines| && lines[i].tags.id == lines[j].tags.id ==> lines[i].tags == lines[j].tags)
    && (open.Some? ==> forall i :: 0 <= i < |lines| && lines[i].tags.id == open.value.tagsId ==>
          lines[i].tags.keyValues == open.value.row.tags)
  }

  lemma ExtendedEntries(f: Layout, o: Open, x: Line)
    requires o.row.name == x.name && o.row.tags == x.tags.keyValues
    ensures RowEntries(Extend(f, o, x).row) == RowEntries(o.row) + [EntryOf(f, x)]
  {
  }

  lemma StartedEntries(f: Layout, x: Line)
    ensures RowEntries(OpenRow(f, x).row) == [EntryOf(f, x)]
  {
  }

  lemma FlattenCons(r: Row, rows: seq<Row>)
    ensures Flatten([r] + rows) == RowEntries(r) + Flatten(rows)
  {
    assert ([r] + rows)[1..] == rows;
  }

  /** Chunking loses, adds and reorders nothing. */
  lemma {:induction false} RowsFlatten(f: Layout, open: Option<Open>, lines: seq<Line>)
    requires TagsById(open, lines)
    ensures Flatten(Rows(f, open, lines)) ==
            (if open.None? then [] else RowEntries(open.value.row)) + LineEntries(f, lines)
    decreases |lines|
  {
    if lines == [] {
      if open.Some? {
        FlattenCons(open.value.row, []);
      }
    } else {
      var x, rest := lines[0], lines[1..];
      if open.Some? && Fits(f, open.value, x) {
        RowsFlatten(f, Some(Extend(f, open.value, x)), rest);
        ExtendedEntries(f, open.value, x);
      } else {
        var started := Some(OpenRow(f, x));
        RowsFlatten(f, started, rest);
        StartedEntries(f, x);
        if open.Some? {
          FlattenCons(open.value.row, Rows(f, started, rest));
        }
      }
    }
  }

  predicate SameSeries(a: Row, b: Row) { a.name == b.name && a.tags == b.tags }

  /** Rows are never empty, never longer than a positive chunk size, and a series continues in
      the next row only if the row before it is full. */
  predicate WellChunked(f: Layout, rows: seq<Row>) {
    && (forall i :: 0 <= i < |rows| ==>
          rows[i].columns == f.columns && rows[i].values != [] && (f.chunkSize > 0 ==> |rows[i].values| <= f.chunkSize))
    && (forall i :: 0 <= i < |rows| - 1 && SameSeries(rows[i], rows[i + 1]) ==>
          f.chunkSize > 0 && |rows[i].values| == f.chunkSize)
  }

  predicate WellOpen(f: Layout, o: Open) {
    o.row.columns == f.columns && o.row.values != [] && (f.chunkSize > 0 ==> |o.row.values| <= f.chunkSize)
  }

  /** Different identifiers mean different tags. */
  predicate IdByTags(open: Option<Open>, lines: seq<Line>) {
    && (forall i, j :: 0 <= i < j < |lines| && lines[i].tags.keyValues == lines[j].tags.keyValues ==>
          lines[i].tags.id == lines[j].tags.id)
    && (open.Some? ==> forall i :: 0 <= i < |lines| && lines[i].tags.keyValues == open.value.row.tags ==>
          lines[i].tags.id == open.value.tagsId)
  }

  lemma {:induction false} RowsWellChunked(f: Layout, open: Option<Open>, lines: seq<Line>)
    requires open.Some? ==> WellOpen(f, open.value)
    requires IdByTags(open, lines)
    ensures WellChunked(f, Rows(f, open, lines))
    ensures open.Some? ==> Rows(f, open, lines) != [] && SameSeries(Rows(f, open, lines)[0], open.value.row)
    ensures open.None? && lines != [] ==>
              && Rows(f, open, lines) != []
              && Rows(f, open, lines)[0].name == lines[0].name
              && Rows(f, open, lines)[0].tags == lines[0].tags.keyValues
    decreases |lines|
  {
    if lines != [] {
      var x, rest := lines[0], lines[1..];
      var next := if open.Some? && Fits(f, open.value, x) then Extend(f, open.value, x) else OpenRow(f, x);
      RowsWellChunked(f, Some(next), rest);
    }
  }

  // The chunks are determined by what they hold.

  lemma FirstEntry(f: Layout, a: seq<Row>)
    requires a != [] && WellChunked(f, a)
    ensures |Flatten(a)| >= |a[0].values| > 0 && Flatten(a)[0] == RowEntries(a[0])[0]
  {
  }

  /** A first row that ends earlier than another cutting's is full. */
  lemma ShorterRowIsFull(f: Layout, a: seq<Row>, b: seq<Row>)
    requires a != [] && b != [] && WellChunked(f, a) && Flatten(a) == Flatten(b)
    requires |a[0].values| < |b[0].values| && SameSeries(a[0], b[0])
    ensures f.chunkSize > 0 && |a[0].values| == f.chunkSize
  {
    var n, all := |a[0].values|, Flatten(a);
    assert all[n] == RowEntries(b[0])[n] && all[n] == Flatten(a[1..])[0];
    assert a[1..] != [] && all[n] == RowEntries(a[1])[0];
    assert SameSeries(a[0], a[1]);
  }

  lemma FirstRowNotShorter(f: Layout, a: seq<Row>, b: seq<Row>)
    requires a != [] && b != [] && WellChunked(f, a) && WellChunked(f, b) && Flatten(a) == Flatten(b)
    ensures |a[0].values| >= |b[0].values| && SameSeries(a[0], b[0])
  {
    FirstEntry(f, a);
    FirstEntry(f, b);
    if |a[0].values| < |b[0].values| {
      ShorterRowIsFull(f, a, b);
    }
  }

  /** A well-formed cutting into rows is the only one of its entries. */
  lemma {:induction false} ChunksUnique(f: Layout, a: seq<Row>, b: seq<Row>)
    requires WellChunked(f, a) && WellChunked(f, b) && Flatten(a) == Flatten(b)
    ensures a == b
  {
    if a == [] {
      if b != [] {
        FirstEntry(f, b);
      }
    } else if b == [] {
      FirstEntry(f, a);
    } else {
      FirstRowNotShorter(f, a, b);
      FirstRowNotShorter(f, b, a);
      SameFirstRow(f, a, b);
      ChunksUnique(f, a[1..], b[1..]);
      assert a == [a[0]] + a[1..] && b == [b[0]] + b[1..];
    }
  }

  lemma SameFirstRow(f: Layout, a: seq<Row>, b: seq<Row>)
    requires a != [] && b != [] && WellChunked(f, a) && WellChunked(f, b) && Flatten(a) == Flatten(b)
    requires |a[0].values| == |b[0].values| && SameSeries(a[0], b[0])
    ensures a[0] == b[0] && Flatten(a[1..]) == Flatten(b[1..])
    ensures WellChunked(f, a[1..]) && WellChunked(f, b[1..])
  {
    var n, all := |a[0].values|, Flatten(a);
    assert Flatten(a[1..]) == all[n..] && Flatten(b[1..]) == all[n..];
    forall i | 0 <= i < n
      ensures a[0].values[i] == b[0].values[i]
    {
      assert all[i] == RowEntries(a[0])[i] && all[i] == RowEntries(b[0])[i];
    }
  }

  // ---------------------------------------------------------------------------------------
  // The join as it stands in the rows
  // ---------------------------------------------------------------------------------------

  /** The entry for key `k`, place by place: its time first, unless that is left out, then each stream's cell. */
  predicate IsEntry(streams: seq<Stream>, omitTime: bool, k: Key, e: Entry) {
    var lead := if omitTime then 0 else 1;
    && e.name == k.name && IsTaggedInAny(streams, k, Tags(k.id, e.tags))
    && |e.values| == |streams| + lead
    && (!omitTime ==> e.values[0] == Stamp(k.time))
    && forall c :: 0 <= c < |streams| ==> IsCell(streams[c], k, e.values[lead + c])
  }

  predicate KeysOrdered(keys: seq<Key>, ascending: bool) {
    forall i, j :: 0 <= i < j < |keys| ==> Before(ascending, keys[i], keys[j])
  }

  /** One entry for each key in any stream, in order. */
  ghost predicate IsListing(streams: seq<Stream>, ascending: bool, omitTime: bool, keys: seq<Key>, es: seq<Entry>) {
    && |keys| == |es| && KeysOrdered(keys, ascending)
    && (forall k: Key :: k in keys <==> InAny(streams, k))
    && (forall i :: 0 <= i < |es| ==> IsEntry(streams, omitTime, keys[i], es[i]))
  }

  lemma {:induction false} LineEntriesAt(f: Layout, lines: seq<Line>)
    ensures |LineEntries(f, lines)| == |lines|
    ensures forall i :: 0 <= i < |lines| ==> LineEntries(f, lines)[i] == EntryOf(f, lines[i])
  {
    if lines != [] {
      LineEntriesAt(f, lines[1..]);
    }
  }

  lemma LineIsEntry(f: Layout, streams: seq<Stream>, x: Line)
    requires IsOuterLine(streams, x)
    ensures IsEntry(streams, f.omitTime, LineKey(x), EntryOf(f, x))
  {
    var e := EntryOf(f, x);
    assert Tags(LineKey(x).id, e.tags) == x.tags;
    var lead := if f.omitTime then 0 else 1;
    forall c | 0 <= c < |streams|
      ensures IsCell(streams[c], LineKey(x), e.values[lead + c])
    {
      assert e.values[lead + c] == x.cells[c];
    }
  }

  function KeysOf(lines: seq<Line>): (keys: seq<Key>)
    ensures |keys| == |lines| && forall i :: 0 <= i < |lines| ==> keys[i] == LineKey(lines[i])
  {
    seq(|lines|, i requires 0 <= i < |lines| => LineKey(lines[i]))
  }

  lemma JoinIsListing(f: Layout, streams: seq<Stream>, ascending: bool, lines: seq<Line>)
    requires IsOuterJoin(streams, ascending, lines)
    ensures IsListing(streams, ascending, f.omitTime, KeysOf(lines), LineEntries(f, lines))
  {
    LineEntriesAt(f, lines);
    forall i | 0 <= i < |lines|
      ensures IsEntry(streams, f.omitTime, KeysOf(lines)[i], LineEntries(f, lines)[i])
    {
      LineIsEntry(f, streams, lines[i]);
    }
    forall k: Key
      ensures k in KeysOf(lines) <==> InAny(streams, k)
    {
      assert HasKey(lines, k) <==> k in KeysOf(lines);
    }
  }

  /** Bare lines with these keys. */
  function Bare(keys: seq<Key>): (lines: seq<Line>)
    ensures |lines| == |keys| && forall i :: 0 <= i < |keys| ==> LineKey(lines[i]) == keys[i]
  {
    seq(|keys|, i requires 0 <= i < |keys| => Line(keys[i].time, keys[i].name, Tags(keys[i].id, map[]), []))
  }

  lemma OrderedKeysUnique(ascending: bool, a: seq<Key>, b: seq<Key>)
    requires KeysOrdered(a, ascending) && KeysOrdered(b, ascending) && forall k: Key :: k in a <==> k in b
    ensures a == b
  {
    forall k: Key
      ensures HasKey(Bare(a), k) <==> HasKey(Bare(b), k)
    {
      assert HasKey(Bare(a), k) <==> k in a;
      assert HasKey(Bare(b), k) <==> k in b;
    }
    SameKeysSamePlaces(ascending, Bare(a), Bare(b));
    forall i | 0 <= i < |a|
      ensures a[i] == b[i]
    {
      assert LineKey(Bare(a)[i]) == LineKey(Bare(b)[i]);
    }
  }

  lemma EntryUnique(streams: seq<Stream>, ascending: bool, omitTime: bool, k: Key, e: Entry, f: Entry)
    requires AllOrdered(streams, ascending) && TagsAgree(streams)
    requires IsEntry(streams, omitTime, k, e) && IsEntry(streams, omitTime, k, f)
    ensures e == f
  {
    var lead := if omitTime then 0 else 1;
    forall i | 0 <= i < |e.values|
      ensures e.values[i] == f.values[i]
    {
      if i >= lead {
        var c := i - lead;
        assert e.values[i] == e.values[lead + c] && f.values[i] == f.values[lead + c];
        CellUnique(streams[c], ascending, k, e.values[i], f.values[i]);
      }
    }
    TagsUnique(streams, k, Tags(k.id, e.tags), Tags(k.id, f.tags));
  }

  lemma TagsUnique(streams: seq<Stream>, k: Key, a: Tags, b: Tags)
    requires TagsAgree(streams) && IsTaggedInAny(streams, k, a) && IsTaggedInAny(streams, k, b)
    ensures a == b
  {
    var c :| 0 <= c < |streams| && IsTagged(streams[c], k, a);
    var d :| 0 <= d < |streams| && IsTagged(streams[d], k, b);
    assert StreamsAgree(streams[c], streams[d]);
  }

  lemma ListingUnique(streams: seq<Stream>, ascending: bool, omitTime: bool,
                      keys: seq<Key>, es: seq<Entry>, keys': seq<Key>, es': seq<Entry>)
    requires AllOrdered(streams, ascending) && TagsAgree(streams)
    requires IsListing(streams, ascending, omitTime, keys, es) && IsListing(streams, ascending, omitTime, keys', es')
    ensures es == es'
  {
    OrderedKeysUnique(ascending, keys, keys');
    forall i | 0 <= i < |es|
      ensures es[i] == es'[i]
    {
      EntryUnique(streams, ascending, omitTime, keys[i], es[i], es'[i]);
    }
  }
}
