/** The row emitter: buffers one point per iterator and merges them into rows. */
module InfluxqlEmitter {
  import opened Common
  import opened InfluxqlJoin

  /** The sentinel `loadBuf` starts from; no point carries this time. */
  const END_MARK: Int64 := -6795364578871345152

  /** One read from an iterator: a point, or an error after which reading may go on. */
  datatype Read = Got(p: Point) | Failed(err: int)

  /** The points an iterator will still deliver. */
  function Points(q: seq<Read>): Stream {
    if q == [] then [] else (if q[0].Got? then [q[0].p] else []) + Points(q[1..])
  }

  function AllPoints(itrs: seq<seq<Read>>): (s: seq<Stream>)
    ensures |s| == |itrs| && forall i :: 0 <= i < |s| ==> s[i] == Points(itrs[i])
  {
    seq(|itrs|, i requires 0 <= i < |itrs| => Points(itrs[i]))
  }

  /** The points of one iterator that have not been emitted: the buffered one first. */
  function StreamOf(b: Option<Point>, q: seq<Read>): Stream {
    (if b.Some? then [b.value] else []) + Points(q)
  }

  function StreamsOf(buf: seq<Option<Point>>, itrs: seq<seq<Read>>): (s: seq<Stream>)
    requires |buf| == |itrs|
    ensures |s| == |itrs|
    ensures forall i :: 0 <= i < |s| ==> s[i] == StreamOf(buf[i], itrs[i])
  {
    seq(|itrs|, i requires 0 <= i < |itrs| => StreamOf(buf[i], itrs[i]))
  }

  predicate NoSentinel(streams: seq<Stream>) {
    forall i, j :: 0 <= i < |streams| && 0 <= j < |streams[i]| ==> streams[i][j].time != END_MARK
  }

  /** The result of `loadBuf`: the sentinel for no point, otherwise the point's coordinates. */
  predicate Chosen(p: Option<Point>, t: Int64, name: string, tags: Tags) {
    if p.None? then t == END_MARK
    else t != END_MARK && t == p.value.time && name == p.value.name && tags == p.value.tags
  }

  lemma FirstOfExtended(heads: seq<Option<Point>>, h: Option<Point>, ascending: bool)
    ensures var r := First(heads, ascending);
            First(heads + [h], ascending) ==
            if h.None? then r
            else if r.None? || Before(ascending, KeyOf(h.value), KeyOf(r.value)) then h
            else r
  {
    assert (heads + [h])[..|heads|] == heads;
  }

  /** Every slot is filled, or its iterator is finished. */
  predicate Loaded(buf: seq<Option<Point>>, itrs: seq<seq<Read>>) {
    |buf| == |itrs| && forall i :: 0 <= i < |itrs| && buf[i].None? ==> itrs[i] == []
  }

  lemma LoadedHeads(buf: seq<Option<Point>>, itrs: seq<seq<Read>>)
    requires Loaded(buf, itrs)
    ensures Heads(StreamsOf(buf, itrs)) == buf
  {
    var streams := StreamsOf(buf, itrs);
    forall i | 0 <= i < |buf|
      ensures Heads(streams)[i] == buf[i]
    {
      assert streams[i] == StreamOf(buf[i], itrs[i]);
    }
  }

  /** The slots after every point at `k` is taken. */
  predicate Taken(buf: seq<Option<Point>>, k: Key, next: seq<Option<Point>>) {
    |next| == |buf| && forall i :: 0 <= i < |buf| ==> next[i] == if At(buf[i], k) then None else buf[i]
  }

  lemma TakenIsAdvance(buf: seq<Option<Point>>, itrs: seq<seq<Read>>, k: Key, next: seq<Option<Point>>)
    requires Loaded(buf, itrs) && Taken(buf, k, next)
    ensures StreamsOf(next, itrs) == Advance(StreamsOf(buf, itrs), k)
  {
    var streams := StreamsOf(buf, itrs);
    forall i | 0 <= i < |buf|
      ensures StreamsOf(next, itrs)[i] == Advance(streams, k)[i]
    {
      assert streams[i] == StreamOf(buf[i], itrs[i]);
      assert buf[i].Some? ==> streams[i][1..] == Points(itrs[i]);
    }
  }

  /** Once every slot is loaded, the first buffered point starts the join of what is unread. */
  lemma JoinStep(buf: seq<Option<Point>>, itrs: seq<seq<Read>>, ascending: bool, next: seq<Option<Point>>)
    requires Loaded(buf, itrs) && First(buf, ascending).Some?
    requires Taken(buf, KeyOf(First(buf, ascending).value), next)
    ensures Join(StreamsOf(buf, itrs), ascending) ==
            [JoinedLine(buf, First(buf, ascending).value)] + Join(StreamsOf(next, itrs), ascending)
    ensures Total(StreamsOf(next, itrs)) < Total(StreamsOf(buf, itrs))
    ensures NoSentinel(StreamsOf(buf, itrs)) ==> NoSentinel(StreamsOf(next, itrs))
  {
    LoadedHeads(buf, itrs);
    TakenIsAdvance(buf, itrs, KeyOf(First(buf, ascending).value), next);
    AdvanceShrinks(StreamsOf(buf, itrs), ascending);
    if NoSentinel(StreamsOf(buf, itrs)) {
      AdvanceKeepsNoSentinel(StreamsOf(buf, itrs), KeyOf(First(buf, ascending).value));
    }
  }

  lemma JoinEnd(buf: seq<Option<Point>>, itrs: seq<seq<Read>>, ascending: bool)
    requires Loaded(buf, itrs) && First(buf, ascending).None?
    ensures Join(StreamsOf(buf, itrs), ascending) == []
  {
    LoadedHeads(buf, itrs);
  }

  lemma AdvanceKeepsNoSentinel(streams: seq<Stream>, k: Key)
    requires NoSentinel(streams)
    ensures NoSentinel(Advance(streams, k))
  {
    var next: seq<Stream> := Advance(streams, k);
    forall i: int, j: int | 0 <= i < |next| && 0 <= j < |next[i]|
      ensures next[i][j].time != END_MARK
    {
      assert next[i][j] == streams[i][j + |streams[i]| - |next[i]|];
    }
  }

  /** Rows of a line followed by others, by what happens to the open row. */
  lemma RowsOfCons(f: Layout, open: Option<Open>, x: Line, rest: seq<Line>)
    ensures Rows(f, open, [x] + rest) ==
            if open.None? then Rows(f, Some(OpenRow(f, x)), rest)
            else if Fits(f, open.value, x) then Rows(f, Some(Extend(f, open.value, x)), rest)
            else [open.value.row] + Rows(f, Some(OpenRow(f, x)), rest)
  {
    assert ([x] + rest)[1..] == rest;
  }

  class Emitter {
    const buf: array<Option<Point>>
    var itrs: seq<seq<Read>>
    const ascending: bool
    const layout: Layout
    var tags: Tags
    var row: Option<Row>

    ghost predicate Valid()
      reads this, buf
    {
      && buf.Length == |itrs|
      && NoSentinel(StreamsOf(buf[..], itrs))
      && (|itrs| == 0 ==> row.None?)
    }

    ghost function Streams(): seq<Stream>
      requires buf.Length == |itrs|
      reads this`itrs, buf
    {
      StreamsOf(buf[..], itrs)
    }

    ghost function OpenPart(): Option<Open>
      reads this
    {
      if row.None? then None else Some(Open(row.value, tags.id))
    }

    /** All rows this emitter still has to return. */
    ghost function Remaining(): seq<Row>
      requires Valid()
      reads this, buf
    {
      Rows(layout, OpenPart(), Join(Streams(), ascending))
    }

    constructor (itrs: seq<seq<Read>>, ascending: bool, layout: Layout)
      requires NoSentinel(AllPoints(itrs))
      ensures Valid() && fresh(buf)
      ensures Streams() == AllPoints(itrs)
      ensures this.ascending == ascending && this.layout == layout && row == None
    {
      this.itrs := itrs;
      this.ascending := ascending;
      this.layout := layout;
      tags := Tags("", map[]);
      row := None;
      buf := new Option<Point>[|itrs|](_ => None);
      new;
      assert forall i :: 0 <= i < |itrs| ==> StreamOf(buf[..][i], itrs[i]) == Points(itrs[i]);
      assert StreamsOf(buf[..], itrs) == AllPoints(itrs);
    }

    method ReadIterator(i: nat) returns (p: Option<Point>, err: Option<int>)
      requires i < |itrs|
      modifies this`itrs
      ensures |itrs| == |old(itrs)|
      ensures forall j :: 0 <= j < |itrs| && j != i ==> itrs[j] == old(itrs[j])
      ensures StreamOf(p, itrs[i]) == Points(old(itrs[i]))
      ensures err.Some? ==> p.None?
      ensures err.None? && p.None? ==> itrs[i] == []
    {
      p, err := None, None;
      if itrs[i] != [] {
        match itrs[i][0] {
          case Got(q) => p := Some(q);
          case Failed(e) => err := Some(e);
        }
        itrs := itrs[i := itrs[i][1..]];
      }
    }

    /** Reads into slot `i` if it is empty. The unread points stay the same even if that fails. */
    method FillSlot(i: nat) returns (err: Option<int>)
      requires Valid() && i < |itrs|
      modifies this`itrs, buf
      ensures Valid() && |itrs| == |old(itrs)| && Streams() == old(Streams())
      ensures forall j :: 0 <= j < |itrs| && j != i ==> buf[j] == old(buf[j]) && itrs[j] == old(itrs[j])
      ensures err.None? && buf[i].None? ==> itrs[i] == []
    {
      err := None;
      if buf[i].None? {
        ghost var streams := Streams();
        var p, e := ReadIterator(i);
        buf[i] := p;
        err := e;
        forall j | 0 <= j < |itrs|
          ensures StreamsOf(buf[..], itrs)[j] == streams[j]
        {
          assert j == i ==> streams[j] == Points(old(itrs[i]));
        }
      }
    }

    /** Whether a point comes before the candidate: by time, then name, then tags. */
    method IsSooner(p: Point, t: Int64, name: string, tags: Tags) returns (sooner: bool)
      ensures sooner == Before(ascending, KeyOf(p), Key(t, name, tags.id))
    {
      if ascending {
        return p.time < t || (p.time == t && StrLess(p.name, name))
               || (p.time == t && p.name == name && StrLess(p.tags.id, tags.id));
      }
      return p.time > t || (p.time == t && StrLess(name, p.name))
             || (p.time == t && p.name == name && StrLess(tags.id, p.tags.id));
    }

    /** Fills empty slots and finds the next time, name and tags. */
    method LoadBuf() returns (t: Int64, name: string, tags: Tags, err: Option<int>)
      requires Valid()
      modifies this`itrs, buf
      ensures Valid() && Streams() == old(Streams())
      ensures err.None? ==> forall i :: 0 <= i < |itrs| && buf[i].None? ==> itrs[i] == []
      ensures err.None? ==> Chosen(First(buf[..], ascending), t, name, tags)
    {
      t, name, tags, err := END_MARK, "", Tags("", map[]), None;
      ghost var streams := Streams();
      for i := 0 to |itrs|
        invariant |itrs| == |old(itrs)| && Valid() && Streams() == streams
        invariant forall j :: 0 <= j < i && buf[j].None? ==> itrs[j] == []
        invariant err.None?
        invariant Chosen(First(buf[..i], ascending), t, name, tags)
      {
        ghost var before := buf[..i];
        err := FillSlot(i);
        if err.Some? {
          break;
        }
        assert buf[..i + 1] == before + [buf[i]];
        FirstOfExtended(before, buf[i], ascending);
        if buf[i].None? {
          continue;
        }
        var p := buf[i].value;
        assert Streams()[i][0] == p;
        if t == END_MARK {
          t, name, tags := p.time, p.name, p.tags;
          continue;
        }
        var sooner := IsSooner(p, t, name, tags);
        if sooner {
          t, name, tags := p.time, p.name, p.tags;
        }
      }
      assert err.None? ==> buf[..|itrs|] == buf[..];
    }

    /** Takes every buffered point at the given time, name and tags. */
    method ReadAt(t: Int64, name: string, tags: Tags) returns (values: seq<Cell>)
      modifies buf
      ensures values == Values(layout, Line(t, name, tags, CellsAt(old(buf[..]), Key(t, name, tags.id))))
      ensures forall i :: 0 <= i < buf.Length ==>
                buf[i] == if At(old(buf[i]), Key(t, name, tags.id)) then None else old(buf[i])
    {
      values := if layout.omitTime then [] else [Stamp(t)];
      ghost var k := Key(t, name, tags.id);
      ghost var cells := CellsAt(buf[..], k);
      ghost var lead := values;
      for i := 0 to buf.Length
        invariant values == lead + cells[..i]
        invariant forall j :: i <= j < buf.Length ==> buf[j] == old(buf[j])
        invariant forall j :: 0 <= j < i ==> buf[j] == if At(old(buf[j]), k) then None else old(buf[j])
      {
        assert cells[..i + 1] == cells[..i] + [cells[i]];
        if buf[i].None? {
          values := values + [Null];
          continue;
        }
        var p := buf[i].value;
        if p.time != t || p.name != name || p.tags.id != tags.id {
          values := values + [Null];
          continue;
        }
        values := values + [p.value];
        buf[i] := None;
      }
      assert cells[..buf.Length] == cells;
    }

    method CreateRow(name: string, tags: Tags, values: seq<Cell>)
      modifies this`tags, this`row
      ensures this.tags == tags && row == Some(Row(name, tags.keyValues, layout.columns, [values]))
    {
      this.tags := tags;
      row := Some(Row(name, tags.keyValues, layout.columns, [values]));
    }

    /** Loads the buffers and reads the next line, the two steps every pass of `Emit` begins
        with. A line taken is the first of the join of what was unread. */
    method NextLine()
      returns (t: Int64, name: string, tags: Tags, values: seq<Cell>, err: Option<int>, ghost line: Line)
      requires Valid()
      modifies this`itrs, buf
      ensures Valid()
      ensures err.Some? ==> Streams() == old(Streams())
      ensures err.None? && t == END_MARK ==> Join(old(Streams()), ascending) == [] == Join(Streams(), ascending)
      ensures err.None? && t != END_MARK ==>
                && Join(old(Streams()), ascending) == [line] + Join(Streams(), ascending)
                && Total(Streams()) < Total(old(Streams()))
                && line.name == name && line.tags == tags && values == Values(layout, line)
    {
      values, line := [], Line(0, "", Tags("", map[]), []);
      t, name, tags, err := LoadBuf();
      if err.Some? {
        return;
      }
      ghost var loaded := buf[..];
      if t == END_MARK {
        JoinEnd(loaded, itrs, ascending);
        return;
      }
      line := JoinedLine(loaded, First(loaded, ascending).value);
      values := ReadAt(t, name, tags);
      JoinStep(loaded, itrs, ascending, buf[..]);
    }

    /** Adds a line to the open row, or closes that row, returns it and opens another. */
    method PlaceLine(name: string, tags: Tags, values: seq<Cell>, ghost line: Line, ghost rest: seq<Line>)
      returns (closed: Option<Row>)
      requires line.name == name && line.tags == tags && values == Values(layout, line)
      modifies this`tags, this`row
      ensures Rows(layout, old(OpenPart()), [line] + rest) ==
              (if closed.None? then [] else [closed.value]) + Rows(layout, OpenPart(), rest)
    {
      RowsOfCons(layout, OpenPart(), line, rest);
      closed := None;
      if row.None? {
        CreateRow(name, tags, values);
      } else if row.value.name == name && this.tags.id == tags.id
                && (layout.chunkSize <= 0 || |row.value.values| < layout.chunkSize) {
        row := Some(row.value.(values := row.value.values + [values]));
      } else {
        closed := row;
        CreateRow(name, tags, values);
      }
    }

    /** Returns the next row, or nothing when no row is left. After an iterator error no row and
        no point is lost: the caller can go on calling. */
    method Emit() returns (result: Option<Row>, err: Option<int>)
      requires Valid()
      modifies this, buf
      ensures Valid()
      ensures err.Some? ==> result.None? && Remaining() == old(Remaining())
      ensures err.None? && result.None? ==> old(Remaining()) == [] == Remaining()
      ensures err.None? && result.Some? ==> old(Remaining()) == [result.value] + Remaining()
    {
      result, err := None, None;
      if |itrs| == 0 {
        JoinEnd(buf[..], itrs, ascending);
        return;
      }
      while true
        invariant Valid() && |itrs| != 0
        invariant Remaining() == old(Remaining())
        decreases Total(Streams())
      {
        var done;
        result, err, done := Pass();
        if done {
          return;
        }
      }
    }

    /** One pass of the loop. It ends the call with an error, at the end of the input or with a closed
        row; otherwise it has consumed points. */
    method Pass() returns (result: Option<Row>, err: Option<int>, done: bool)
      requires Valid() && |itrs| != 0
      modifies this, buf
      ensures Valid() && |itrs| != 0
      ensures err.Some? ==> done && result.None? && Remaining() == old(Remaining())
      ensures err.None? && done && result.None? ==> old(Remaining()) == [] == Remaining()
      ensures err.None? && done && result.Some? ==> old(Remaining()) == [result.value] + Remaining()
      ensures !done ==> Remaining() == old(Remaining()) && Total(Streams()) < Total(old(Streams()))
    {
      result, done := None, true;
      var t, name, tags, values;
      ghost var line;
      t, name, tags, values, err, line := NextLine();
      if err.Some? {
        return;
      } else if t == END_MARK {
        result := row;
        row := None;
        return;
      }
      ghost var rest := Join(Streams(), ascending);
      result := PlaceLine(name, tags, values, line, rest);
      assert rest == Join(Streams(), ascending);
      done := result.Some?;
    }
  }

  // ---------------------------------------------------------------------------------------
  // A whole run
  // ---------------------------------------------------------------------------------------

  /** How tag sets get their identifiers. */
  type TagEncoding = map<string, string> -> string

  ghost predicate Injective(encode: TagEncoding) {
    forall a, b {:trigger encode(a), encode(b)} :: encode(a) == encode(b) ==> a == b
  }

  predicate PointsTagged(streams: seq<Stream>, encode: TagEncoding) {
    forall i, j :: 0 <= i < |streams| && 0 <= j < |streams[i]| ==>
      streams[i][j].tags.id == encode(streams[i][j].tags.keyValues)
  }

  predicate LinesTagged(lines: seq<Line>, encode: TagEncoding) {
    forall i :: 0 <= i < |lines| ==> lines[i].tags.id == encode(lines[i].tags.keyValues)
  }

  lemma AdvanceKeepsTagged(streams: seq<Stream>, k: Key, encode: TagEncoding)
    requires PointsTagged(streams, encode)
    ensures PointsTagged(Advance(streams, k), encode)
  {
    var next: seq<Stream> := Advance(streams, k);
    forall i: int, j: int | 0 <= i < |next| && 0 <= j < |next[i]|
      ensures next[i][j].tags.id == encode(next[i][j].tags.keyValues)
    {
      assert next[i][j] == streams[i][j + |streams[i]| - |next[i]|];
    }
  }

  lemma FirstTagged(streams: seq<Stream>, ascending: bool, encode: TagEncoding)
    requires PointsTagged(streams, encode) && First(Heads(streams), ascending).Some?
    ensures var tags := First(Heads(streams), ascending).value.tags; tags.id == encode(tags.keyValues)
  {
    FirstIsAHead(Heads(streams), ascending);
    var i :| 0 <= i < |streams| && Heads(streams)[i] == First(Heads(streams), ascending);
    assert streams[i][0] == First(Heads(streams), ascending).value;
  }

  lemma {:induction false} JoinTagged(streams: seq<Stream>, ascending: bool, encode: TagEncoding)
    requires PointsTagged(streams, encode)
    ensures LinesTagged(Join(streams, ascending), encode)
    decreases Total(streams)
  {
    var first := First(Heads(streams), ascending);
    if first.Some? {
      var next := Advance(streams, KeyOf(first.value));
      FirstTagged(streams, ascending, encode);
      AdvanceKeepsTagged(streams, KeyOf(first.value), encode);
      AdvanceShrinks(streams, ascending);
      JoinTagged(next, ascending, encode);
      assert Join(streams, ascending) == [JoinedLine(Heads(streams), first.value)] + Join(next, ascending);
    }
  }

  /** Everything a run delivers: the rows hold exactly one entry for each key of the streams, place by place
      and in order, cut into well-formed chunks. */
  ghost predicate IsEmission(streams: seq<Stream>, ascending: bool, layout: Layout, rows: seq<Row>) {
    && WellChunked(layout, rows)
    && exists keys: seq<Key> :: IsListing(streams, ascending, layout.omitTime, keys, Flatten(rows))
  }

  lemma TaggedLinesById(lines: seq<Line>, encode: TagEncoding)
    requires Injective(encode) && LinesTagged(lines, encode)
    ensures TagsById(None, lines) && IdByTags(None, lines)
  {
  }

  lemma RowsAreEmission(streams: seq<Stream>, ascending: bool, layout: Layout, encode: TagEncoding)
    requires AllOrdered(streams, ascending)
    requires Injective(encode) && PointsTagged(streams, encode)
    ensures IsEmission(streams, ascending, layout, Rows(layout, None, Join(streams, ascending)))
  {
    var lines := Join(streams, ascending);
    JoinIsOuterJoin(streams, ascending);
    JoinTagged(streams, ascending, encode);
    TaggedLinesById(lines, encode);
    RowsFlatten(layout, None, lines);
    RowsWellChunked(layout, None, lines);
    JoinIsListing(layout, streams, ascending, lines);
    assert Flatten(Rows(layout, None, lines)) == LineEntries(layout, lines);
  }

  lemma TaggedPointsAgree(streams: seq<Stream>, encode: TagEncoding)
    requires Injective(encode) && PointsTagged(streams, encode)
    ensures TagsAgree(streams)
  {
  }

  /** The description determines the rows. */
  lemma EmissionUnique(streams: seq<Stream>, ascending: bool, layout: Layout, a: seq<Row>, b: seq<Row>)
    requires AllOrdered(streams, ascending) && TagsAgree(streams)
    ensures IsEmission(streams, ascending, layout, a) && IsEmission(streams, ascending, layout, b) ==> a == b
  {
    if IsEmission(streams, ascending, layout, a) && IsEmission(streams, ascending, layout, b) {
      var x: seq<Key> :| IsListing(streams, ascending, layout.omitTime, x, Flatten(a));
      var y: seq<Key> :| IsListing(streams, ascending, layout.omitTime, y, Flatten(b));
      ListingUnique(streams, ascending, layout.omitTime, x, Flatten(a), y, Flatten(b));
      ChunksUnique(layout, a, b);
    }
  }

  /** Calls `Emit` until it returns no row or fails, as the statement executor does. */
  method Drain(e: Emitter) returns (rows: seq<Row>, err: Option<int>)
    requires e.Valid()
    modifies e, e.buf
    ensures e.Valid() && old(e.Remaining()) == rows + e.Remaining()
    ensures err.None? ==> e.Remaining() == []
  {
    rows, err := [], None;
    ghost var all := e.Remaining();
    ghost var left := all;
    while true
      invariant e.Valid() && left == e.Remaining()
      invariant all == rows + left
      decreases |left|
    {
      var row, failure := e.Emit();
      if failure.Some? {
        err := failure;
        return;
      } else if row.None? {
        return;
      }
      ghost var rest := e.Remaining();
      OneMore(rows, row.value, rest);
      rows := rows + [row.value];
      left := rest;
    }
  }

  lemma OneMore(rows: seq<Row>, row: Row, rest: seq<Row>)
    ensures rows + ([row] + rest) == rows + [row] + rest
  {
  }

  /** A run from the start: without an error it gives all rows, with one the first of them. */
  method EmitAll(itrs: seq<seq<Read>>, ascending: bool, layout: Layout)
    returns (rows: seq<Row>, err: Option<int>)
    requires NoSentinel(AllPoints(itrs))
    ensures err.None? ==> rows == Rows(layout, None, Join(AllPoints(itrs), ascending))
    ensures err.Some? ==> rows <= Rows(layout, None, Join(AllPoints(itrs), ascending))
  {
    var e := new Emitter(itrs, ascending, layout);
    rows, err := Drain(e);
  }

  /** The same run over ordered iterators delivers the full outer join, and nothing else would do. */
  method EmitJoin(itrs: seq<seq<Read>>, ascending: bool, layout: Layout, ghost encode: TagEncoding)
    returns (rows: seq<Row>, err: Option<int>)
    requires NoSentinel(AllPoints(itrs))
    requires AllOrdered(AllPoints(itrs), ascending)
    requires Injective(encode) && PointsTagged(AllPoints(itrs), encode)
    ensures err.None? ==> IsEmission(AllPoints(itrs), ascending, layout, rows)
    ensures err.None? ==> forall other :: IsEmission(AllPoints(itrs), ascending, layout, other) ==> other == rows
  {
    rows, err := EmitAll(itrs, ascending, layout);
    RowsAreEmission(AllPoints(itrs), ascending, layout, encode);
    TaggedPointsAgree(AllPoints(itrs), encode);
    forall other | err.None? && IsEmission(AllPoints(itrs), ascending, layout, other)
      ensures other == rows
    {
      EmissionUnique(AllPoints(itrs), ascending, layout, other, rows);
    }
  }
}
